/** The chained hash table (lib/kernel/hash.c).  A table is its buckets, each a list of elements
    with the newest in front; the caller supplies `hash` and `less`, and rehashing may fail to
    allocate.  The table refines a set of pairwise unequal elements. */
module HashTable {
  import opened Options
  import opened Integers
  import opened Bits
  import opened PowersOfTwo

  /** Equal as find_elem tests it. */
  predicate Equal<E>(less: (E, E) -> bool, a: E, b: E) { !less(a, b) && !less(b, a) }

  /** What the table asks of its caller: equality is an equivalence and the hash respects it. */
  ghost predicate Agree<E(!new)>(hash: E -> nat, less: (E, E) -> bool)
  {
    && (forall a :: Equal(less, a, a))
    && (forall a, b, c :: Equal(less, a, b) && Equal(less, b, c) ==> Equal(less, a, c))
    && (forall a, b :: Equal(less, a, b) ==> hash(a) == hash(b))
  }

  /** find_bucket's index: hash & (bucket_cnt - 1). */
  function BucketIdx(hash: nat, bucketCnt: nat): nat
    requires bucketCnt > 0
  {
    And(hash, bucketCnt - 1)
  }

  /** For a power of two that is the remainder. */
  lemma BucketIdxIsMod(hash: nat, k: nat)
    ensures BucketIdx(hash, Pow2(k)) == hash % Pow2(k) < Pow2(k)
  {
    LowMaskIsMod(hash, k);
    DivDef(hash, Pow2(k));
  }

  /** All elements, bucket by bucket. */
  function Flat<E>(buckets: seq<seq<E>>): seq<E>
  {
    if buckets == [] then [] else Flat(buckets[..|buckets| - 1]) + buckets[|buckets| - 1]
  }

  ghost function Bag<E>(buckets: seq<seq<E>>): multiset<E> { multiset(Flat(buckets)) }

  lemma BagLast<E>(buckets: seq<seq<E>>)
    requires buckets != []
    ensures Bag(buckets) == Bag(buckets[..|buckets| - 1]) + multiset(buckets[|buckets| - 1])
  {}

  lemma MultisetSwap<E>(a': multiset<E>, b: multiset<E>, a: multiset<E>, l: multiset<E>, c: multiset<E>)
    requires a' + b == a + l
    ensures (a' + c) + b == (a + c) + l
  {
    assert (a' + c) + b == (a' + b) + c;
    assert (a + c) + l == (a + l) + c;
  }

  lemma MultisetExchange<E>(a: multiset<E>, b: multiset<E>, c: multiset<E>)
    ensures (a + b) + c == (a + c) + b
  {}

  lemma MultisetCancel<E>(x: multiset<E>, y: multiset<E>, b: multiset<E>)
    requires x + b == y + b
    ensures x == y
  {
    forall e ensures x[e] == y[e] { assert (x + b)[e] == (y + b)[e]; }
  }

  /** Changing one bucket changes the bag by that bucket. */
  lemma {:induction false} BagUpdate<E>(buckets: seq<seq<E>>, b: nat, list: seq<E>)
    requires b < |buckets|
    ensures Bag(buckets[b := list]) + multiset(buckets[b]) == Bag(buckets) + multiset(list)
  {
    var n := |buckets| - 1;
    var buckets' := buckets[b := list];
    BagLast(buckets);
    BagLast(buckets');
    hide Bag;
    if b < n {
      assert buckets'[..n] == buckets[..n][b := list];
      BagUpdate(buckets[..n], b, list);
      MultisetSwap(Bag(buckets'[..n]), multiset(buckets[b]), Bag(buckets[..n]), multiset(list), multiset(buckets[n]));
    } else {
      assert buckets'[..n] == buckets[..n];
      var a := Bag(buckets[..n]);
      MultisetExchange(a, multiset(list), multiset(buckets[b]));
    }
  }

  lemma BagPush<E>(buckets: seq<seq<E>>, b: nat, e: E)
    requires b < |buckets|
    ensures Bag(buckets[b := [e] + buckets[b]]) == Bag(buckets) + multiset{e}
  {
    BagUpdate(buckets, b, [e] + buckets[b]);
    hide Bag;
    var m, l := Bag(buckets), multiset(buckets[b]);
    assert multiset([e] + buckets[b]) == multiset{e} + l;
    assert m + (multiset{e} + l) == (m + multiset{e}) + l;
    MultisetCancel(Bag(buckets[b := [e] + buckets[b]]), m + multiset{e}, l);
  }

  function Without<E(==)>(s: seq<E>, e: E): (r: seq<E>)
    requires e in s
    ensures multiset(r) == multiset(s) - multiset{e}
    ensures forall x :: x in r ==> x in s
  {
    if s[0] == e then
      assert s == [e] + s[1..];
      s[1..]
    else
      assert s == [s[0]] + s[1..];
      var r := [s[0]] + Without(s[1..], e);
      r
  }

  lemma BagRemove<E>(buckets: seq<seq<E>>, b: nat, e: E)
    requires b < |buckets| && e in buckets[b]
    ensures e in Bag(buckets) && Bag(buckets[b := Without(buckets[b], e)]) == Bag(buckets) - multiset{e}
  {
    InBag(buckets, e);
    var list := Without(buckets[b], e);
    BagUpdate(buckets, b, list);
    hide Bag, Without;
    var m', m, l := Bag(buckets[b := list]), Bag(buckets), multiset(list);
    assert multiset(buckets[b]) == l + multiset{e};
    assert m' + (l + multiset{e}) == (m' + multiset{e}) + l;
    MultisetCancel(m' + multiset{e}, m, l);
    assert m' == m' + multiset{e} - multiset{e};
  }

  lemma {:induction false} InBag<E>(buckets: seq<seq<E>>, x: E)
    ensures x in Bag(buckets) <==> exists b :: 0 <= b < |buckets| && x in buckets[b]
  {
    if buckets != [] {
      var n := |buckets| - 1;
      InBag(buckets[..n], x);
      if x in buckets[n] { assert x in Flat(buckets); }
      if x in Bag(buckets[..n]) {
        var b :| 0 <= b < n && x in buckets[..n][b];
        assert x in buckets[b];
      }
    }
  }

  lemma {:induction false} EmptyBag<E>(buckets: seq<seq<E>>)
    requires forall b :: 0 <= b < |buckets| ==> buckets[b] == []
    ensures Flat(buckets) == []
  {
    if buckets != [] { EmptyBag(buckets[..|buckets| - 1]); }
  }

  /** No two elements of the bag are equal. */
  ghost predicate NoTwoEqual<E>(less: (E, E) -> bool, m: multiset<E>)
  {
    && (forall a :: a in m ==> m[a] == 1)
    && (forall a, b :: a in m && b in m && Equal(less, a, b) ==> a == b)
  }

  lemma NoneLeft<E(!new)>(hash: E -> nat, less: (E, E) -> bool, m: multiset<E>, x: E, e: E)
    requires Agree(hash, less) && NoTwoEqual(less, m) && x in m && Equal(less, x, e)
    ensures forall y :: y in m - multiset{x} ==> !Equal(less, y, e)
  {
    forall y | y in m - multiset{x} ensures !Equal(less, y, e) {
      assert y in m && m[x] == 1 && (m - multiset{x})[y] == if y == x then 0 else m[y];
      assert Equal(less, e, x);
      assert Equal(less, y, e) ==> Equal(less, y, x);
    }
  }

  /** Every element sits in the bucket its hash selects. */
  ghost predicate Placed<E>(hash: E -> nat, buckets: seq<seq<E>>)
    requires |buckets| > 0
  {
    forall b, x :: 0 <= b < |buckets| && x in buckets[b] ==> BucketIdx(hash(x), |buckets|) == b
  }

  class Hash<E(==, !new)> {
    const hash: E -> nat
    const less: (E, E) -> bool
    var buckets: seq<seq<E>>
    var elemCnt: nat

    ghost predicate Valid()
      reads this
    {
      && Agree(hash, less)
      && (exists k :: |buckets| == Pow2(k))
      && Placed(hash, buckets)
      && NoTwoEqual(less, Bag(buckets))
      && elemCnt == |Flat(buckets)|
    }

    ghost function Elems(): multiset<E>
      reads this
    {
      Bag(buckets)
    }

    /** hash_init, when its allocation succeeds. */
    constructor (hash: E -> nat, less: (E, E) -> bool)
      requires Agree(hash, less)
      ensures Valid() && Elems() == multiset{} && this.hash == hash && this.less == less
    {
      this.hash, this.less := hash, less;
      buckets, elemCnt := seq(4, _ => []), 0;
      new;
      EmptyBag(buckets);
      assert Pow2(2) == 4;
    }

    method FindElem(b: nat, e: E) returns (r: Option<E>)
      requires b < |buckets|
      ensures r.Some? ==> r.value in buckets[b] && Equal(less, r.value, e)
      ensures r.None? ==> forall x :: x in buckets[b] ==> !Equal(less, x, e)
    {
      for i := 0 to |buckets[b]|
        invariant forall j :: 0 <= j < i ==> !Equal(less, buckets[b][j], e)
      {
        var hi := buckets[b][i];
        if !less(hi, e) && !less(e, hi) { return Some(hi); }
      }
      return None;
    }

    /** hash_find. */
    method Find(e: E) returns (r: Option<E>)
      requires Valid()
      ensures r.Some? ==> r.value in Elems() && Equal(less, r.value, e)
      ensures r.None? ==> forall x :: x in Elems() ==> !Equal(less, x, e)
    {
      var b := BucketOf(e);
      r := FindElem(b, e);
      EqualInBucket(e, b);
    }

    method BucketOf(e: E) returns (b: nat)
      requires Valid()
      ensures b == BucketIdx(hash(e), |buckets|) < |buckets|
    {
      ghost var k :| |buckets| == Pow2(k);
      BucketIdxIsMod(hash(e), k);
      b := BucketIdx(hash(e), |buckets|);
    }

    /** Elements equal to e can only be in e's bucket. */
    lemma EqualInBucket(e: E, b: nat)
      requires Valid() && b < |buckets| && b == BucketIdx(hash(e), |buckets|)
      ensures forall x :: x in buckets[b] ==> x in Elems()
      ensures forall x :: x in Elems() && Equal(less, x, e) ==> x in buckets[b]
    {
      forall x | x in buckets[b] ensures x in Elems() { InBag(buckets, x); }
      forall x | x in Elems() && Equal(less, x, e) ensures x in buckets[b] { InBag(buckets, x); }
    }

    /** Four buckets are always wanted, and more as long as each gets two elements on average. */
    predicate Wanted(n: nat)
      reads this
    {
      n <= 4 || 2 * n <= elemCnt
    }

    /** The bucket count that rehash aims for: the largest power of two wanted. */
    ghost predicate Ideal(n: nat)
      reads this
    {
      (exists k :: n == Pow2(k)) && Wanted(n) && forall j :: Wanted(Pow2(j)) ==> Pow2(j) <= n
    }

    function Target(): nat
      reads this
    {
      if elemCnt / 2 < 4 then 4 else elemCnt / 2
    }

    /** rehash: the same elements in an ideal number of buckets, or no change without memory. */
    method Rehash(memOk: bool)
      requires Valid()
      modifies this`buckets
      ensures Valid() && Elems() == old(Elems())
      ensures memOk ==> Ideal(|buckets|)
      ensures !memOk ==> buckets == old(buckets)
    {
      var n, k := LeadingPower(Target());
      assert forall m: nat :: Wanted(m) <==> m <= Target();
      if n == |buckets| || !memOk { return; }
      var fresh' := MoveAll(n, k);
      BagSize(buckets, fresh');
      buckets := fresh';
    }

    /** Move every element to the front of its bucket among n new ones. */
    method MoveAll(n: nat, ghost k: nat) returns (r: seq<seq<E>>)
      requires Valid() && n == Pow2(k)
      ensures |r| == n && Placed(hash, r) && Bag(r) == Bag(buckets)
    {
      r := seq(n, _ => []);
      EmptyBag(r);
      assert Flat(buckets[..0]) == [];
      for i := 0 to |buckets|
        invariant |r| == n && Placed(hash, r) && Bag(r) == Bag(buckets[..i])
      {
        r := MoveBucket(buckets[i], r, k);
        assert buckets[..i + 1][..i] == buckets[..i];
        assert Flat(buckets[..i + 1]) == Flat(buckets[..i]) + buckets[i];
      }
      assert buckets[..|buckets|] == buckets;
    }

    method MoveBucket(list: seq<E>, r0: seq<seq<E>>, ghost k: nat) returns (r: seq<seq<E>>)
      requires |r0| == Pow2(k) && Placed(hash, r0)
      ensures |r| == |r0| && Placed(hash, r) && Bag(r) == Bag(r0) + multiset(list)
    {
      r := r0;
      for j := 0 to |list|
        invariant |r| == |r0| && Placed(hash, r) && Bag(r) == Bag(r0) + multiset(list[..j])
      {
        BucketIdxIsMod(hash(list[j]), k);
        var b := BucketIdx(hash(list[j]), |r|);
        BagPush(r, b, list[j]);
        r := r[b := [list[j]] + r[b]];
        assert list[..j + 1] == list[..j] + [list[j]];
      }
      assert list[..|list|] == list;
    }

    /** hash_insert: add e unless an equal element is there, which is then returned. */
    method Insert(e: E, memOk: bool) returns (r: Option<E>)
      requires Valid()
      modifies this
      ensures Valid()
      ensures r.Some? ==> r.value in old(Elems()) && Equal(less, r.value, e) && Elems() == old(Elems())
      ensures r.None? ==> (forall x :: x in old(Elems()) ==> !Equal(less, x, e)) && Elems() == old(Elems()) + multiset{e}
      ensures memOk ==> Ideal(|buckets|)
    {
      var b := BucketOf(e);
      r := FindElem(b, e);
      EqualInBucket(e, b);
      if r.None? { InsertElem(b, e); }
      Rehash(memOk);
    }

    method InsertElem(b: nat, e: E)
      requires Valid() && b == BucketIdx(hash(e), |buckets|) < |buckets|
      requires forall x :: x in Elems() ==> !Equal(less, x, e)
      modifies this
      ensures Valid() && Elems() == old(Elems()) + multiset{e} && |buckets| == |old(buckets)|
    {
      BagPush(buckets, b, e);
      elemCnt := elemCnt + 1;
      buckets := buckets[b := [e] + buckets[b]];
      assert |Flat(buckets)| == |Bag(buckets)|;
      assert e !in old(Elems());
    }

    method RemoveElem(b: nat, e: E)
      requires Valid() && b == BucketIdx(hash(e), |buckets|) < |buckets| && e in buckets[b]
      modifies this
      ensures Valid() && Elems() == old(Elems()) - multiset{e} && |buckets| == |old(buckets)|
    {
      BagRemove(buckets, b, e);
      assert |Flat(buckets)| == |Bag(buckets)| > 0;
      elemCnt := elemCnt - 1;
      buckets := buckets[b := Without(buckets[b], e)];
      assert |Flat(buckets)| == |Bag(buckets)|;
    }

    /** hash_delete: remove and return the equal element, if any. */
    method Delete(e: E, memOk: bool) returns (r: Option<E>)
      requires Valid()
      modifies this
      ensures Valid()
      ensures r.Some? ==> r.value in old(Elems()) && Equal(less, r.value, e) && Elems() == old(Elems()) - multiset{r.value}
      ensures r.None? ==> (forall x :: x in old(Elems()) ==> !Equal(less, x, e)) && Elems() == old(Elems())
      ensures r.Some? && memOk ==> Ideal(|buckets|)
    {
      var b := BucketOf(e);
      r := FindElem(b, e);
      EqualInBucket(e, b);
      if r.Some? {
        RemoveElem(b, r.value);
        Rehash(memOk);
      }
    }

    /** hash_replace: e takes the place of the equal element, if any. */
    method Replace(e: E, memOk: bool) returns (r: Option<E>)
      requires Valid()
      modifies this
      ensures Valid()
      ensures r.Some? ==> r.value in old(Elems()) && Equal(less, r.value, e)
                          && Elems() == old(Elems()) - multiset{r.value} + multiset{e}
      ensures r.None? ==> (forall x :: x in old(Elems()) ==> !Equal(less, x, e)) && Elems() == old(Elems()) + multiset{e}
      ensures memOk ==> Ideal(|buckets|)
    {
      var b := BucketOf(e);
      r := FindElem(b, e);
      EqualInBucket(e, b);
      if r.Some? { RemoveEqual(b, r.value, e); }
      InsertElem(b, e);
      Rehash(memOk);
    }

    /** Removing the one element equal to e leaves none. */
    method RemoveEqual(b: nat, x: E, e: E)
      requires Valid() && b == BucketIdx(hash(e), |buckets|) < |buckets| && x in buckets[b] && Equal(less, x, e)
      modifies this
      ensures Valid() && Elems() == old(Elems()) - multiset{x} && |buckets| == |old(buckets)|
      ensures x in old(Elems()) && forall y :: y in Elems() ==> !Equal(less, y, e)
    {
      InBag(buckets, x);
      NoneLeft(hash, less, Elems(), x, e);
      hide Agree, Bag, NoTwoEqual, Placed, Flat;
      RemoveElem(b, x);
    }
  }

  lemma BagSize<E>(a: seq<seq<E>>, b: seq<seq<E>>)
    requires Bag(a) == Bag(b)
    ensures |Flat(a)| == |Flat(b)|
  {
    assert |Flat(a)| == |Bag(a)| && |Flat(b)| == |Bag(b)|;
  }

  // ----- iteration

  lemma FlatPrefix<E>(buckets: seq<seq<E>>, b: nat)
    requires b < |buckets|
    ensures Flat(buckets[..b + 1]) == Flat(buckets[..b]) + buckets[b]
  {
    assert buckets[..b + 1][..b] == buckets[..b];
  }

  lemma {:induction false} FlatAt<E>(buckets: seq<seq<E>>, b: nat, i: nat)
    requires b < |buckets| && i < |buckets[b]|
    ensures |Flat(buckets[..b])| + i < |Flat(buckets)|
    ensures Flat(buckets)[|Flat(buckets[..b])| + i] == buckets[b][i]
  {
    var n := |buckets| - 1;
    if b < n {
      FlatAt(buckets[..n], b, i);
      assert buckets[..n][..b] == buckets[..b];
    }
  }

  /** hash_iterator: `pos` is the place in the current bucket, -1 standing for its list head. */
  class Iterator<E(==, !new)> {
    const h: Hash<E>
    var bucket: nat
    var pos: int
    var ended: bool

    /** How many elements Next has returned. */
    ghost function Seen(): int
      requires bucket < |h.buckets|
      reads this, h
    {
      |Flat(h.buckets[..bucket])| + pos + 1
    }

    ghost predicate Valid()
      reads this, h
    {
      !ended ==> bucket < |h.buckets| && -1 <= pos < |h.buckets[bucket]|
    }

    /** hash_first. */
    constructor (h: Hash<E>)
      requires |h.buckets| > 0
      ensures this.h == h && Valid() && !ended && bucket < |h.buckets| && Seen() == 0
    {
      this.h, bucket, pos, ended := h, 0, -1, false;
      new;
      assert h.buckets[..0] == [];
    }

    /** hash_next: calls return the elements of the bag one after another, each once, then null. */
    method Next() returns (r: Option<E>)
      requires Valid() && !ended
      modifies this
      ensures Valid()
      ensures r.Some? <==> old(Seen()) < |Flat(h.buckets)|
      ensures r.Some? ==> !ended && bucket < |h.buckets| && Seen() == old(Seen()) + 1
                          && r.value == Flat(h.buckets)[old(Seen())]
      ensures r.None? ==> ended
    {
      ghost var seen := Seen();
      pos := pos + 1;
      while pos == |h.buckets[bucket]|
        invariant bucket < |h.buckets| && 0 <= pos <= |h.buckets[bucket]|
        invariant |Flat(h.buckets[..bucket])| + pos == seen && !ended
        decreases |h.buckets| - bucket
      {
        FlatPrefix(h.buckets, bucket);
        bucket := bucket + 1;
        if bucket >= |h.buckets| {
          ended := true;
          assert h.buckets[..bucket] == h.buckets;
          return None;
        }
        pos := 0;
      }
      FlatAt(h.buckets, bucket, pos);
      return Some(h.buckets[bucket][pos]);
    }
  }
}
