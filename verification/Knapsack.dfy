/** The 0-1 knapsack problem: the dynamic program of Knapsack.java and the exhaustive search
    of KnapsackBruteForce.java. */
module Knapsack {

  /** The items, by weight and by value. */
  datatype Items = Items(weights: seq<nat>, values: seq<int>)

  predicate Valid(items: Items) { |items.weights| == |items.values| }

  /** Which of the first |sel| items are taken. */
  type Selection = seq<bool>

  function Weight(items: Items, sel: Selection): nat
    requires |sel| <= |items.weights|
  {
    if sel == [] then 0
    else
      var n := |sel| - 1;
      Weight(items, sel[..n]) + if sel[n] then items.weights[n] else 0
  }

  function Value(items: Items, sel: Selection): int
    requires |sel| <= |items.values|
  {
    if sel == [] then 0
    else
      var n := |sel| - 1;
      Value(items, sel[..n]) + if sel[n] then items.values[n] else 0
  }

  ghost predicate Feasible(items: Items, sel: Selection, capacity: int)
    requires Valid(items)
  {
    |sel| <= |items.weights| && Weight(items, sel) <= capacity
  }

  /** v is the greatest value of a selection among the first i items that weighs at most
      capacity. */
  ghost predicate IsBest(items: Items, i: nat, capacity: int, v: int)
    requires Valid(items) && i <= |items.values|
  {
    && (exists sel: Selection :: |sel| == i && Feasible(items, sel, capacity) && Value(items, sel) == v)
    && (forall sel: Selection :: |sel| == i && Feasible(items, sel, capacity) ==> Value(items, sel) <= v)
  }

  /** There is one greatest value. */
  lemma BestUnique(items: Items, i: nat, capacity: int, v: int, w: int)
    requires Valid(items) && i <= |items.values| && IsBest(items, i, capacity, v) && IsBest(items, i, capacity, w)
    ensures v == w
  {
  }

  lemma Extend(items: Items, sel: Selection, take: bool)
    requires Valid(items) && |sel| < |items.values|
    ensures Weight(items, sel + [take]) == Weight(items, sel) + if take then items.weights[|sel|] else 0
    ensures Value(items, sel + [take]) == Value(items, sel) + if take then items.values[|sel|] else 0
  {
    assert (sel + [take])[..|sel|] == sel;
  }

  lemma BestNone(items: Items, capacity: nat)
    requires Valid(items)
    ensures IsBest(items, 0, capacity, 0)
  {
    assert Feasible(items, [], capacity) && Value(items, []) == 0;
  }

  function Max(a: int, b: int): int { if a >= b then a else b }

  /** The value of the first i + 1 items, from that of the first i. */
  function Next(items: Items, i: nat, capacity: nat, skip: int, take: int): int
    requires Valid(items) && i < |items.values|
  {
    if items.weights[i] <= capacity then Max(skip, items.values[i] + take) else skip
  }

  lemma NextBounds(items: Items, i: nat, capacity: nat, skip: int, take: int, sel: Selection)
    requires Valid(items) && i < |items.values| && IsBest(items, i, capacity, skip)
    requires items.weights[i] <= capacity ==> IsBest(items, i, capacity - items.weights[i], take)
    requires |sel| == i + 1 && Feasible(items, sel, capacity)
    ensures Value(items, sel) <= Next(items, i, capacity, skip, take)
  {
    hide Weight, Value;
    var rest := sel[..i];
    assert sel == rest + [sel[i]];
    Extend(items, rest, sel[i]);
    assert Feasible(items, rest, if sel[i] then capacity - items.weights[i] else capacity);
  }

  lemma NextAttained(items: Items, i: nat, capacity: nat, skip: int, take: int) returns (sel: Selection)
    requires Valid(items) && i < |items.values| && IsBest(items, i, capacity, skip)
    requires items.weights[i] <= capacity ==> IsBest(items, i, capacity - items.weights[i], take)
    ensures |sel| == i + 1 && Feasible(items, sel, capacity)
    ensures Value(items, sel) == Next(items, i, capacity, skip, take)
  {
    hide Weight, Value;
    var w := items.weights[i];
    if w <= capacity && items.values[i] + take > skip {
      var rest: Selection :| |rest| == i && Feasible(items, rest, capacity - w) && Value(items, rest) == take;
      Extend(items, rest, true);
      sel := rest + [true];
    } else {
      var rest: Selection :| |rest| == i && Feasible(items, rest, capacity) && Value(items, rest) == skip;
      Extend(items, rest, false);
      sel := rest + [false];
    }
  }

  /** The recurrence of the dynamic program. */
  lemma BestStep(items: Items, i: nat, capacity: nat, skip: int, take: int)
    requires Valid(items) && i < |items.values| && IsBest(items, i, capacity, skip)
    requires items.weights[i] <= capacity ==> IsBest(items, i, capacity - items.weights[i], take)
    ensures IsBest(items, i + 1, capacity, Next(items, i, capacity, skip, take))
  {
    hide Feasible, Value, Next;
    var attained := NextAttained(items, i, capacity, skip, take);
    forall sel: Selection | |sel| == i + 1 && Feasible(items, sel, capacity)
      ensures Value(items, sel) <= Next(items, i, capacity, skip, take)
    {
      NextBounds(items, i, capacity, skip, take, sel);
    }
  }

  /** That value. */
  function Best(items: Items, i: nat, capacity: nat): int
    requires Valid(items) && i <= |items.values|
  {
    if i == 0 then 0
    else
      var w := items.weights[i - 1];
      Next(items, i - 1, capacity, Best(items, i - 1, capacity),
           if w <= capacity then Best(items, i - 1, capacity - w) else 0)
  }

  lemma {:induction false} BestIs(items: Items, i: nat, capacity: nat)
    requires Valid(items) && i <= |items.values|
    ensures IsBest(items, i, capacity, Best(items, i, capacity))
  {
    hide IsBest, Next;
    if i == 0 {
      BestNone(items, capacity);
    } else {
      var w := items.weights[i - 1];
      BestIs(items, i - 1, capacity);
      if w <= capacity { BestIs(items, i - 1, capacity - w); }
      BestStep(items, i - 1, capacity, Best(items, i - 1, capacity),
               if w <= capacity then Best(items, i - 1, capacity - w) else 0);
    }
  }

  /** More items and more room are never worse, and nothing is worth less than the empty
      knapsack. */
  lemma {:induction false} BestGrows(items: Items, i: nat, n: nat, j: nat, capacity: nat)
    requires Valid(items) && i <= n <= |items.values| && j <= capacity
    ensures 0 <= Best(items, i, j) <= Best(items, n, capacity)
    decreases n
  {
    if n > 0 {
      var w := items.weights[n - 1];
      if i < n {
        BestGrows(items, i, n - 1, j, capacity);
      } else {
        BestGrows(items, n - 1, n - 1, j, capacity);
        if w <= j { BestGrows(items, n - 1, n - 1, j - w, capacity - w); }
      }
    }
  }

  // ----- Java's int -----

  const INT_MAX: int := 0x7fff_ffff
  const INT_MIN: int := -0x8000_0000

  predicate IsInt(x: int) { INT_MIN <= x <= INT_MAX }

  function Wrap(x: int): (r: int)
    ensures IsInt(r) && (IsInt(x) ==> r == x)
  {
    (x - INT_MIN) % 0x1_0000_0000 + INT_MIN
  }

  lemma WrapAdd(x: int, y: int)
    ensures Wrap(Wrap(x) + y) == Wrap(x + y)
  {
  }

  /** The items' numbers are ints. */
  predicate JavaInts(items: Items)
  {
    (forall k :: 0 <= k < |items.weights| ==> items.weights[k] <= INT_MAX) &&
    (forall k :: 0 <= k < |items.values| ==> IsInt(items.values[k]))
  }

  // ----- Knapsack.java -----

  /** Rows before i, and entries before j of row i, are optimal values. */
  ghost predicate Filled(items: Items, m: array2<int>, i: nat, j: nat)
    requires Valid(items) && m.Length0 == |items.values| + 1
    reads m
  {
    forall p: nat, q: nat :: p < m.Length0 && q < m.Length1 && (p < i || (p == i && q < j)) ==>
      m[p, q] == Best(items, p, q)
  }

  ghost predicate Ints(m: array2<int>)
    reads m
  {
    forall p, q :: 0 <= p < m.Length0 && 0 <= q < m.Length1 ==> IsInt(m[p, q])
  }

  /** An entry of the recurrence does not overflow where the last entry does not. */
  lemma NoOverflow(items: Items, i: nat, j: nat, capacity: nat)
    requires Valid(items) && JavaInts(items) && 1 <= i <= |items.values| && j <= capacity
    requires Best(items, |items.values|, capacity) <= INT_MAX && items.weights[i - 1] <= j
    ensures IsInt(items.values[i - 1] + Best(items, i - 1, j - items.weights[i - 1]))
  {
    BestGrows(items, i, |items.values|, j, capacity);
    BestGrows(items, i - 1, |items.values|, j - items.weights[i - 1], capacity);
  }

  /** getSolutionMatrix, in ints that wrap: every entry [i][j] is the best value of the first i
      items in capacity j, exactly when the best value of all is an int. */
  method GetSolutionMatrix(items: Items, capacity: nat) returns (m: array2<int>)
    requires Valid(items) && JavaInts(items) && capacity < INT_MAX
    ensures fresh(m) && m.Length0 == |items.values| + 1 && m.Length1 == capacity + 1
    ensures Filled(items, m, m.Length0, 0) <==> Best(items, |items.values|, capacity) <= INT_MAX
    ensures m[|items.values|, capacity] == Best(items, |items.values|, capacity) <==>
              Best(items, |items.values|, capacity) <= INT_MAX
  {
    hide Wrap;
    var n := |items.values|;
    m := new int[n + 1, capacity + 1]((_, _) => 0);
    ghost var fits := Best(items, n, capacity) <= INT_MAX;
    for i := 1 to n + 1
      invariant Ints(m) && (fits ==> Filled(items, m, i, 0))
    {
      for j := 0 to capacity + 1
        invariant Ints(m) && (fits ==> Filled(items, m, i, j))
      {
        var w, v := items.weights[i - 1], items.values[i - 1];
        if j - w >= 0 {
          if fits { NoOverflow(items, i, j, capacity); }
          m[i, j] := Max(m[i - 1, j], Wrap(v + m[i - 1, j - w]));
        } else {
          m[i, j] := m[i - 1, j];
        }
      }
    }
    assert IsInt(m[n, capacity]);
  }

  /** The values that can add up. */
  function Gains(values: seq<int>): nat
  {
    if values == [] then 0
    else Gains(values[..|values| - 1]) + if values[|values| - 1] > 0 then values[|values| - 1] else 0
  }

  /** It is enough that the positive values together are an int. */
  lemma {:induction false} BestBelowGains(items: Items, i: nat, capacity: nat)
    requires Valid(items) && i <= |items.values|
    ensures Best(items, i, capacity) <= Gains(items.values[..i])
  {
    if i > 0 {
      assert items.values[..i][..i - 1] == items.values[..i - 1];
      BestBelowGains(items, i - 1, capacity);
      if items.weights[i - 1] <= capacity { BestBelowGains(items, i - 1, capacity - items.weights[i - 1]); }
    }
  }

  // ----- subsets as lists of item numbers, from 1, in decreasing order -----

  function ListWeight(items: Items, list: seq<int>): int
    requires forall k :: 0 <= k < |list| ==> 1 <= list[k] <= |items.weights|
  {
    if list == [] then 0 else ListWeight(items, list[..|list| - 1]) + items.weights[list[|list| - 1] - 1]
  }

  function ListValue(items: Items, list: seq<int>): int
    requires forall k :: 0 <= k < |list| ==> 1 <= list[k] <= |items.values|
  {
    if list == [] then 0 else ListValue(items, list[..|list| - 1]) + items.values[list[|list| - 1] - 1]
  }

  ghost predicate Descending(list: seq<int>)
  {
    forall j, k :: 0 <= j < k < |list| ==> list[j] > list[k]
  }

  lemma ListPush(items: Items, list: seq<int>, x: int)
    requires Valid(items) && 1 <= x <= |items.weights|
    requires forall k :: 0 <= k < |list| ==> 1 <= list[k] <= |items.weights|
    ensures ListWeight(items, list + [x]) == ListWeight(items, list) + items.weights[x - 1]
    ensures ListValue(items, list + [x]) == ListValue(items, list) + items.values[x - 1]
  {
    assert (list + [x])[..|list|] == list;
  }

  /** What the traceback reads off two entries of a column that differ: the item is taken. */
  lemma Taken(items: Items, m: array2<int>, i: nat, j: nat)
    requires Valid(items) && m.Length0 == |items.values| + 1 && Filled(items, m, m.Length0, 0)
    requires 1 <= i < m.Length0 && j < m.Length1 && m[i, j] != m[i - 1, j]
    ensures items.weights[i - 1] <= j && m[i, j] == items.values[i - 1] + m[i - 1, j - items.weights[i - 1]]
  {
    assert m[i, j] == Best(items, i, j) && m[i - 1, j] == Best(items, i - 1, j);
  }

  lemma RowZero(items: Items, m: array2<int>, j: nat)
    requires Valid(items) && m.Length0 == |items.values| + 1 && Filled(items, m, m.Length0, 0) && j < m.Length1
    ensures m[0, j] == 0
  {
  }

  /** A list of different items among those after the first i. */
  ghost predicate ListOk(items: Items, list: seq<int>, i: nat)
    requires Valid(items)
  {
    Descending(list) && forall k :: 0 <= k < |list| ==> i < list[k] <= |items.values|
  }

  /** getOptimalSubset: different items, within the capacity, worth the corner entry. */
  method GetOptimalSubset(items: Items, m: array2<int>) returns (subset: seq<int>)
    requires Valid(items) && m.Length0 == |items.values| + 1 && m.Length1 > 0
    requires Filled(items, m, m.Length0, 0)
    ensures ListOk(items, subset, 0)
    ensures ListWeight(items, subset) <= m.Length1 - 1
    ensures ListValue(items, subset) == m[m.Length0 - 1, m.Length1 - 1]
  {
    hide Filled, ListWeight, ListValue;
    var picked := new int[|items.weights|];
    var numItems := 0;
    var i, j := m.Length0 - 1, m.Length1 - 1;
    assert picked[..0] == [];
    ListNone(items);
    while j >= 0 && i > 0
      invariant 0 <= i < m.Length0 && 0 <= j < m.Length1 && 0 <= numItems <= picked.Length - i
      invariant ListOk(items, picked[..numItems], i)
      invariant ListWeight(items, picked[..numItems]) + j == m.Length1 - 1
      invariant ListValue(items, picked[..numItems]) + m[i, j] == m[m.Length0 - 1, m.Length1 - 1]
      decreases i
    {
      if m[i, j] != m[i - 1, j] {
        ghost var was := picked[..numItems];
        ListPush(items, was, i);
        Taken(items, m, i, j);
        picked[numItems] := i;
        assert picked[..numItems + 1] == was + [i];
        j := j - items.weights[i - 1];
        numItems := numItems + 1;
      }
      i := i - 1;
    }
    RowZero(items, m, j);
    subset := picked[..numItems];
  }

  lemma ListNone(items: Items)
    ensures ListWeight(items, []) == 0 && ListValue(items, []) == 0
  {
  }

  // ----- KnapsackBruteForce.java -----

  const MIN_VALUE: int := INT_MIN   // Integer.MIN_VALUE

  /** The weight and the value that the base case of solve adds up, in ints that wrap. */
  function Wt(items: Items, sel: Selection): int
    requires |sel| <= |items.weights|
  {
    Wrap(Weight(items, sel))
  }

  function Val(items: Items, sel: Selection): int
    requires |sel| <= |items.values|
  {
    Wrap(Value(items, sel))
  }

  ghost predicate Seems(items: Items, sel: Selection, capacity: int)
    requires Valid(items)
  {
    |sel| <= |items.weights| && Wt(items, sel) <= capacity
  }

  /** A selection that seems feasible and agrees with fixed from item k on. */
  ghost predicate Completes(items: Items, capacity: int, sel: Selection, fixed: Selection, k: nat)
    requires Valid(items) && k <= |fixed|
  {
    |sel| == |fixed| && sel[k..] == fixed[k..] && Seems(items, sel, capacity)
  }

  /** The two possibilities for item k. */
  lemma CompletesSplit(items: Items, capacity: int, sel: Selection, a: Selection, t: Selection, f: Selection, k: nat)
    requires Valid(items) && k < |a| == |t| == |f| && t[k] && !f[k]
    requires t[k + 1..] == a[k + 1..] && f[k + 1..] == a[k + 1..]
    ensures Completes(items, capacity, sel, a, k + 1) <==>
            Completes(items, capacity, sel, t, k) || Completes(items, capacity, sel, f, k)
  {
    assert t[k..] == [true] + t[k + 1..] && f[k..] == [false] + f[k + 1..];
    assert t[k..][1..] == t[k + 1..] && f[k..][1..] == f[k + 1..];
    if |sel| == |a| {
      assert sel[k..] == [sel[k]] + sel[k + 1..];
      assert sel[k..][1..] == sel[k + 1..];
      assert sel[k] == sel[k..][0] && t[k..][0] && !f[k..][0];
      if sel[k] { assert [sel[k]] == [true]; } else { assert [sel[k]] == [false]; }
    }
  }

  class BruteForce {
    const items: Items
    const capacity: int
    const current: array<bool>
    const solution: array<bool>
    var bestSoFar: int

    ghost predicate Ok()
      reads this
    {
      && Valid(items) && current != solution
      && current.Length == |items.values| && solution.Length == |items.values|
    }

    constructor (items: Items, capacity: int)
      requires Valid(items)
      ensures Ok() && this.items == items && this.capacity == capacity && bestSoFar == MIN_VALUE
      ensures fresh(current) && fresh(solution)
    {
      this.items, this.capacity, bestSoFar := items, capacity, MIN_VALUE;
      current := new bool[|items.values|];
      solution := new bool[|items.values|];
    }

    method CopySolution()
      requires Ok()
      modifies solution
      ensures solution[..] == current[..]
    {
      for i := 0 to current.Length
        invariant solution[..i] == current[..i]
      {
        solution[i] := current[i];
      }
    }

    /** The base case of solve. */
    method Consider()
      requires Ok()
      modifies this`bestSoFar, solution
      ensures Ok()
      ensures var better := Seems(items, current[..], capacity) && Val(items, current[..]) > old(bestSoFar);
              && bestSoFar == (if better then Val(items, current[..]) else old(bestSoFar))
              && solution[..] == (if better then current[..] else old(solution[..]))
    {
      var wt, val := 0, 0;
      hide Wrap;
      ghost var chosen := current[..];
      for i := 0 to current.Length
        invariant wt == Wt(items, chosen[..i]) && val == Val(items, chosen[..i])
        invariant bestSoFar == old(bestSoFar) && solution[..] == old(solution[..])
      {
        Extend(items, chosen[..i], chosen[i]);
        assert chosen[..i + 1] == chosen[..i] + [chosen[i]];
        if current[i] {
          WrapAdd(Weight(items, chosen[..i]), items.weights[i]);
          WrapAdd(Value(items, chosen[..i]), items.values[i]);
          wt, val := Wrap(wt + items.weights[i]), Wrap(val + items.values[i]);
        }
      }
      assert chosen[..current.Length] == chosen;
      if wt <= capacity && val > bestSoFar {
        bestSoFar := val;
        CopySolution();
      }
      assert current[..] == chosen;
    }

    /** solve for the first k items, the others being chosen: all completions are tried. */
    method Solve(k: nat)
      requires Ok() && k <= current.Length
      modifies this`bestSoFar, solution, current
      ensures Ok() && current[k..] == old(current[k..])
      ensures bestSoFar >= old(bestSoFar)
      ensures forall sel: Selection :: Completes(items, capacity, sel, old(current[..]), k) ==>
                Val(items, sel) <= bestSoFar
      ensures if bestSoFar == old(bestSoFar) then solution[..] == old(solution[..])
              else Completes(items, capacity, solution[..], old(current[..]), k) &&
                   Val(items, solution[..]) == bestSoFar
      decreases k
    {
      hide Seems, Val;
      ghost var a := current[..];
      if k == 0 {
        Consider();
        forall sel: Selection | Completes(items, capacity, sel, a, 0) ensures sel == a {
          assert sel == sel[0..] && a == a[0..];
        }
      } else {
        hide Completes;
        current[k - 1] := true;
        ghost var t := current[..];
        Solve(k - 1);
        assert current[k..] == current[k - 1..][1..] && t[k..] == t[k - 1..][1..];
        assert t[k..] == a[k..];
        current[k - 1] := false;
        ghost var f := current[..];
        Solve(k - 1);
        assert current[k..] == current[k - 1..][1..] && f[k..] == f[k - 1..][1..];
        forall sel: Selection
          ensures Completes(items, capacity, sel, a, k) <==>
                  Completes(items, capacity, sel, t, k - 1) || Completes(items, capacity, sel, f, k - 1)
        {
          CompletesSplit(items, capacity, sel, a, t, f, k - 1);
        }
      }
    }

    /** What KnapsackBruteForce computes where no sum can overflow: the greatest value, and a
        selection that has it.  For positive values that add up to an int it does so exactly
        when all weights together are an int. */
    method Run()
      requires Ok() && capacity >= 0 && bestSoFar == MIN_VALUE
      modifies this`bestSoFar, solution, current
      ensures Ok()
      ensures SumsFit(items) ==>
                && IsBest(items, |items.values|, capacity, bestSoFar)
                && Feasible(items, solution[..], capacity) && Value(items, solution[..]) == bestSoFar
      ensures Regular(items) && capacity <= INT_MAX ==>
                (IsBest(items, |items.values|, capacity, bestSoFar) <==> Total(items.weights) <= INT_MAX)
    {
      var n := current.Length;
      ghost var a := current[..];
      Solve(n);
      forall sel: Selection | |sel| == n
        ensures Completes(items, capacity, sel, a, n) <==> Seems(items, sel, capacity)
      {
        assert sel[n..] == [] == a[n..];
      }
      if SumsFit(items) {
        forall sel: Selection | |sel| == n
          ensures (Seems(items, sel, capacity) <==> Feasible(items, sel, capacity)) && Val(items, sel) == Value(items, sel)
        {
          SumsInt(items, sel);
        }
        var none: Selection := seq(n, i => false);
        NothingTaken(items, n);
        assert Feasible(items, none, capacity);
      } else if Regular(items) && capacity <= INT_MAX {
        RegularLosses(items.values);
        assert Total(items.weights) > INT_MAX;
        NotBest(items, capacity, bestSoFar);
      }
    }
  }

  // ----- sums that fit an int -----

  function Total(weights: seq<nat>): nat
  {
    if weights == [] then 0 else Total(weights[..|weights| - 1]) + weights[|weights| - 1]
  }

  function Losses(values: seq<int>): int
  {
    if values == [] then 0
    else Losses(values[..|values| - 1]) + if values[|values| - 1] < 0 then values[|values| - 1] else 0
  }

  /** All weights together, all gains together and all losses together are ints. */
  predicate SumsFit(items: Items)
  {
    Total(items.weights) <= INT_MAX && Gains(items.values) <= INT_MAX && Losses(items.values) >= INT_MIN
  }

  lemma {:induction false} SumsWithin(items: Items, sel: Selection)
    requires Valid(items) && |sel| <= |items.values|
    ensures Weight(items, sel) <= Total(items.weights[..|sel|])
    ensures Losses(items.values[..|sel|]) <= Value(items, sel) <= Gains(items.values[..|sel|])
    decreases |sel|
  {
    if sel != [] {
      var n := |sel| - 1;
      SumsWithin(items, sel[..n]);
      assert items.weights[..n + 1][..n] == items.weights[..n] && items.values[..n + 1][..n] == items.values[..n];
    }
  }

  lemma SumsInt(items: Items, sel: Selection)
    requires Valid(items) && |sel| == |items.values| && SumsFit(items)
    ensures Wt(items, sel) == Weight(items, sel) && Val(items, sel) == Value(items, sel)
  {
    SumsWithin(items, sel);
    assert items.weights[..|sel|] == items.weights && items.values[..|sel|] == items.values;
  }

  // ----- where all weights together overflow -----

  /** Ints as the programs draw them: positive values, which add up to an int. */
  predicate Regular(items: Items)
  {
    JavaInts(items) && (forall k :: 0 <= k < |items.values| ==> items.values[k] > 0) && Gains(items.values) <= INT_MAX
  }

  lemma {:induction false} RegularLosses(values: seq<int>)
    requires forall k :: 0 <= k < |values| ==> values[k] > 0
    ensures Losses(values) == 0
  {
    if values != [] { RegularLosses(values[..|values| - 1]); }
  }

  /** Taking item k as well. */
  lemma {:induction false} TakeToo(items: Items, sel: Selection, k: nat)
    requires Valid(items) && k < |sel| <= |items.values|
    ensures var more := sel[k := true];
            && Weight(items, more) == Weight(items, sel) + (if sel[k] then 0 else items.weights[k])
            && Value(items, more) == Value(items, sel) + (if sel[k] then 0 else items.values[k])
    decreases |sel|
  {
    var n := |sel| - 1;
    var more := sel[k := true];
    if k < n {
      assert more[..n] == sel[..n][k := true];
      TakeToo(items, sel[..n], k);
    } else {
      assert more[..n] == sel[..n];
    }
  }

  /** The first j items taken, the others as in sel. */
  function Full(sel: Selection, j: nat): (r: Selection)
    requires j <= |sel|
    ensures |r| == |sel|
  {
    seq(j, i => true) + sel[j..]
  }

  lemma {:induction false} AllTaken(items: Items, n: nat)
    requires Valid(items) && n <= |items.values|
    ensures Weight(items, seq(n, i => true)) == Total(items.weights[..n])
  {
    if n > 0 {
      AllTaken(items, n - 1);
      assert seq(n, i => true)[..n - 1] == seq(n - 1, i => true);
      assert items.weights[..n][..n - 1] == items.weights[..n - 1];
    }
  }

  /** From a selection of int weight on, items taken one at a time: the first total that is no
      int wraps below zero, and its value is greater. */
  lemma {:induction false} FirstOverflow(items: Items, sel: Selection, j: nat) returns (heavy: Selection)
    requires Valid(items) && Regular(items) && |sel| == |items.values| && j <= |sel|
    requires Weight(items, Full(sel, j)) <= INT_MAX && Total(items.weights) > INT_MAX
    requires Value(items, Full(sel, j)) >= Value(items, sel)
    ensures |heavy| == |sel| && INT_MAX < Weight(items, heavy) <= 2 * INT_MAX
    ensures Value(items, heavy) > Value(items, sel)
    decreases |sel| - j
  {
    var now := Full(sel, j);
    if j == |sel| {
      assert now == seq(j, i => true) && items.weights[..j] == items.weights;
      AllTaken(items, j);
      heavy := now;
    } else {
      TakeToo(items, now, j);
      assert Full(sel, j + 1) == now[j := true];
      if Weight(items, now[j := true]) > INT_MAX {
        heavy := now[j := true];
      } else {
        heavy := FirstOverflow(items, sel, j + 1);
      }
    }
  }

  /** So a selection seems feasible that is worth more than the best. */
  lemma NotBest(items: Items, capacity: int, bestSoFar: int)
    requires Valid(items) && Regular(items) && 0 <= capacity <= INT_MAX && Total(items.weights) > INT_MAX
    requires forall sel: Selection :: |sel| == |items.values| && Seems(items, sel, capacity) ==> Val(items, sel) <= bestSoFar
    ensures !IsBest(items, |items.values|, capacity, bestSoFar)
  {
    var n := |items.values|;
    BestIs(items, n, capacity);
    var best: Selection :| |best| == n && Feasible(items, best, capacity) && Value(items, best) == Best(items, n, capacity);
    hide Value, Best, Weight;
    assert Full(best, 0) == best;
    var heavy := FirstOverflow(items, best, 0);
    SumsWithin(items, heavy);
    RegularLosses(items.values);
    assert items.values[..n] == items.values;
    assert Seems(items, heavy, capacity) && Val(items, heavy) == Value(items, heavy);
    if IsBest(items, n, capacity, bestSoFar) { BestUnique(items, n, capacity, bestSoFar, Best(items, n, capacity)); }
  }

  /** Three items of the greatest weight the program draws, for the greatest capacity. */
  method OverflowExample() returns (bestSoFar: int)
    ensures !IsBest(Items([0x3fff_ffff, 0x3fff_ffff, 0x3fff_ffff], [1, 1, 1]), 3, INT_MAX, bestSoFar)
  {
    var w := 0x3fff_ffff;
    var items := Items([w, w, w], [1, 1, 1]);
    ThreeSums(items.weights, items.values);
    var search := new BruteForce(items, INT_MAX);
    search.Run();
    bestSoFar := search.bestSoFar;
  }

  lemma ThreeSums(w: seq<nat>, v: seq<int>)
    requires |w| == |v| == 3 && forall k :: 0 <= k < 3 ==> v[k] > 0
    ensures Total(w) == w[0] + w[1] + w[2] && Gains(v) == v[0] + v[1] + v[2]
  {
    assert w[..1][..0] == [] && v[..1][..0] == [];
    assert Total(w[..1]) == w[0] && Gains(v[..1]) == v[0];
    assert w[..2][..1] == w[..1] && v[..2][..1] == v[..1];
    assert Total(w[..2]) == w[0] + w[1] && Gains(v[..2]) == v[0] + v[1];
  }

  lemma {:induction false} NothingTaken(items: Items, n: nat)
    requires Valid(items) && n <= |items.values|
    ensures Weight(items, seq(n, i => false)) == 0 && Value(items, seq(n, i => false)) == 0
  {
    if n > 0 {
      NothingTaken(items, n - 1);
      assert seq(n, i => false)[..n - 1] == seq(n - 1, i => false);
    }
  }

  /** Two items whose values do not add up to an int spoil the matrix. */
  method MatrixExample() returns (m: array2<int>)
    ensures var items := Items([1, 1], [INT_MAX, 1]);
            fresh(m) && m.Length0 == 3 && m.Length1 == 3 && !IsBest(items, 2, 2, m[2, 2])
  {
    var items := Items([1, 1], [INT_MAX, 1]);
    assert Best(items, 1, 1) == INT_MAX;
    assert Best(items, 2, 2) > INT_MAX;
    assert |items.values| == 2;
    BestIs(items, 2, 2);
    m := GetSolutionMatrix(items, 2);
  }

  /** The dynamic program and the exhaustive search agree where no sum overflows, and for
      positive values exactly when all weights together are an int; the traceback of the first
      attains its corner entry. */
  method Agree(items: Items, capacity: nat) returns (corner: int, bestSoFar: int, subset: seq<int>)
    requires Valid(items) && JavaInts(items) && capacity < INT_MAX && Gains(items.values) <= INT_MAX
    ensures IsBest(items, |items.values|, capacity, corner)
    ensures ListOk(items, subset, 0) && ListWeight(items, subset) <= capacity && ListValue(items, subset) == corner
    ensures SumsFit(items) ==> corner == bestSoFar
    ensures Regular(items) ==> (corner == bestSoFar <==> Total(items.weights) <= INT_MAX)
  {
    hide IsBest;
    var n := |items.values|;
    BestBelowGains(items, n, capacity);
    assert items.values[..n] == items.values;
    var m := GetSolutionMatrix(items, capacity);
    BestIs(items, n, capacity);
    subset := GetOptimalSubset(items, m);
    corner := m[n, capacity];
    var search := new BruteForce(items, capacity);
    search.Run();
    bestSoFar := search.bestSoFar;
    if IsBest(items, n, capacity, bestSoFar) { BestUnique(items, n, capacity, corner, bestSoFar); }
  }
}
