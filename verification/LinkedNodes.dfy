/** The elements of intrusive doubly linked lists (lib/kernel/list.c).  An element carries the
    value that the caller's `less` compares. */
module LinkedNodes {
  import opened Sequences

  class Elem<T(0)> {
    var prev: Elem?<T>
    var next: Elem?<T>
    const value: T

    constructor (value: T)
      ensures this.value == value
    {
      this.value := value;
    }

    /** A header element, whose value is never looked at. */
    constructor Header()
    {}
  }

  /** Neighbours in the sequence point at each other. */
  ghost predicate Linked<T(0)>(s: seq<Elem<T>>)
    reads s
  {
    && (forall i {:trigger s[i].next} :: 0 <= i < |s| - 1 ==> s[i].next == s[i + 1])
    && (forall i {:trigger s[i].prev} :: 0 < i < |s| ==> s[i].prev == s[i - 1])
  }

  /** The block s[f..l] moved in front of s[b]. */
  function Moved<E>(s: seq<E>, b: nat, f: nat, l: nat): (r: seq<E>)
    requires b <= f <= l <= |s|
    ensures |r| == |s|
    ensures forall k :: 0 <= k < |r| ==> r[k] == s[MovedFrom(b, f, l, k)]
  {
    s[..b] + s[f..l] + s[b..f] + s[l..]
  }

  /** Where the element now at position k came from. */
  function MovedFrom(b: nat, f: nat, l: nat, k: nat): nat
    requires b <= f <= l
  {
    if k < b || l <= k then k else if k < b + (l - f) then f + (k - b) else k - (l - f)
  }

  lemma MovedDistinct<E>(s: seq<E>, b: nat, f: nat, l: nat)
    requires b <= f <= l <= |s| && Distinct(s)
    ensures Distinct(Moved(s, b, f, l))
    ensures forall x :: x in Moved(s, b, f, l) <==> x in s
  {
    var r := Moved(s, b, f, l);
    forall i, j | 0 <= i < j < |r| ensures r[i] != r[j] {
      assert MovedFrom(b, f, l, i) != MovedFrom(b, f, l, j);
    }
    assert s == s[..b] + s[b..f] + s[f..l] + s[l..];
  }

  /** One element moved up: it is at the front, what followed it is where it was. */
  lemma MovedUp<E>(s: seq<E>, i: nat, j: nat)
    requires i < j < |s| - 1
    ensures Spliced(s, i, j, j + 1) == Moved(s, i, j, j + 1)
    ensures Moved(s, i, j, j + 1)[i + 1] == s[i] && Moved(s, i, j, j + 1)[j + 1] == s[j + 1]
  {}

  /** The successor and predecessor positions that the six stores leave behind. */
  function NextIdx(b: nat, f: nat, l: nat, k: nat): nat
  {
    if k + 1 == b then f else if k + 1 == l then b else if k + 1 == f then l else k + 1
  }

  function PrevIdx(b: nat, f: nat, l: nat, k: nat): nat
    requires b > 0 && f > 0 && l > 0 && k > 0
  {
    if k == b then l - 1 else if k == f then b - 1 else if k == l then f - 1 else k - 1
  }

  /** The successors and predecessors that list_splice's stores leave behind, wherever before
      stands outside the block: the block moves back, forth or nowhere. */
  function SpliceNext(b: nat, f: nat, l: nat, k: nat): nat
  {
    if k + 1 == l then b
    else if b == l && k + 1 == f then f
    else if b != l && k + 1 == b then f
    else if k + 1 == f then l
    else k + 1
  }

  function SplicePrev(b: nat, f: nat, l: nat, k: nat): nat
    requires 0 < b && 0 < f < l && k > 0
  {
    if k == b then l - 1
    else if k == f then (if b == l then f - 1 else b - 1)
    else if k == l then f - 1
    else k - 1
  }

  /** And where before stands inside the block. */
  function InsideNext(b: nat, f: nat, l: nat, k: nat): nat
  {
    if k + 1 == l then b
    else if f < b && k + 1 == b then f
    else if f < b && k + 1 == f then l
    else k + 1
  }

  function InsidePrev(b: nat, f: nat, l: nat, k: nat): nat
    requires 0 < f <= b && 0 < l && k > 0
  {
    if k == b then l - 1
    else if f < b && k == f then b - 1
    else if k == l then f - 1
    else k - 1
  }

  function Spliced<E>(s: seq<E>, b: nat, f: nat, l: nat): (r: seq<E>)
    requires b <= |s| && f <= l <= |s| && (b < f || l <= b)
    ensures |r| == |s|
  {
    if b < f then Moved(s, b, f, l) else Moved(s, f, l, b)
  }

  lemma SplicedDistinct<E>(s: seq<E>, b: nat, f: nat, l: nat)
    requires 1 <= b < |s| && 1 <= f < l < |s| && (b < f || l <= b) && Distinct(s)
    ensures var r := Spliced(s, b, f, l);
            Distinct(r) && r[0] == s[0] && r[|r| - 1] == s[|s| - 1] && forall k :: 0 <= k < |r| ==> r[k] in s
  {
    if b < f { MovedDistinct(s, b, f, l); } else { MovedDistinct(s, f, l, b); }
  }

  lemma SplicedLinked<T(0)>(s: seq<Elem<T>>, b: nat, f: nat, l: nat)
    requires 1 <= b < |s| && 1 <= f < l < |s| && (b < f || l <= b)
    requires forall k {:trigger s[k].next} :: 0 <= k < |s| - 1 ==> s[k].next == s[SpliceNext(b, f, l, k)]
    requires forall k {:trigger s[k].prev} :: 0 < k < |s| ==> s[k].prev == s[SplicePrev(b, f, l, k)]
    ensures Linked(Spliced(s, b, f, l))
  {
    hide Moved;
    if b < f {
      MovedLinked(s, b, f, l);
    } else if l < b {
      MovedLinked(s, f, l, b);
    } else {
      MovedNowhere(s, f, l);
    }
  }

  lemma MovedNowhere<E>(s: seq<E>, f: nat, l: nat)
    requires f <= l <= |s|
    ensures Moved(s, f, l, l) == s
  {
  }

  /** They are the neighbours in the moved sequence. */
  lemma MovedLinked<T(0)>(s: seq<Elem<T>>, b: nat, f: nat, l: nat)
    requires 1 <= b < f < l < |s|
    requires forall k {:trigger s[k].next} :: 0 <= k < |s| - 1 ==> s[k].next == s[NextIdx(b, f, l, k)]
    requires forall k {:trigger s[k].prev} :: 0 < k < |s| ==> s[k].prev == s[PrevIdx(b, f, l, k)]
    ensures Linked(Moved(s, b, f, l))
  {
    var r := Moved(s, b, f, l);
    forall k | 0 <= k < |r| - 1 ensures r[k].next == r[k + 1] {
      assert NextIdx(b, f, l, MovedFrom(b, f, l, k)) == MovedFrom(b, f, l, k + 1);
      assert r[k] == s[MovedFrom(b, f, l, k)];
    }
    forall k | 0 < k < |r| ensures r[k].prev == r[k - 1] {
      assert PrevIdx(b, f, l, MovedFrom(b, f, l, k)) == MovedFrom(b, f, l, k - 1);
      assert r[k] == s[MovedFrom(b, f, l, k)];
    }
  }

  /** A chain of links, found in a well-formed sequence that ends, lies there in a row. */
  lemma {:induction false} Follow<T(0)>(c: seq<Elem<T>>, k: nat, r: seq<Elem<T>>, i: nat)
    requires k < |c| && forall j {:trigger c[j].next} :: 0 <= j < |c| - 1 ==> c[j].next == c[j + 1]
    requires i < |r| && r[|r| - 1].next == null && r[i] == c[0]
    ensures Linked(r) ==> i + k < |r| && r[i + k] == c[k]
  {
    if k > 0 && Linked(r) {
      Follow(c, k - 1, r, i);
      assert c[k - 1].next == c[k];
      assert i + k - 1 < |r| - 1 ==> r[i + k - 1].next == r[i + k];
    }
  }

  /** No well-formed sequence that ends holds an element of a cycle. */
  lemma CycleOut<T(0)>(s: seq<Elem<T>>, b: nat, l: nat, r: seq<Elem<T>>)
    requires b < l <= |s| && (forall j {:trigger s[j].next} :: b <= j < l - 1 ==> s[j].next == s[j + 1])
    requires s[l - 1].next == s[b]
    requires Distinct(r) && r != [] && r[|r| - 1].next == null && s[b] in r
    ensures !Linked(r)
  {
    var c := s[b..l] + [s[b]];
    assert forall j {:trigger c[j].next} :: 0 <= j < |c| - 1 ==> c[j] == s[b + j] && c[j].next == c[j + 1];
    var i :| 0 <= i < |r| && r[i] == s[b];
    Follow(c, l - b, r, i);
  }
}
