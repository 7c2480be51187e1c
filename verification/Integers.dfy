/** Small facts about powers of two, products and quotients, each proved on its own so that the
    solver meets as few nonlinear terms at a time as possible; and finite ranges. */
module Integers {

  function Pow2(k: nat): (r: nat)
    ensures r > 0
  {
    if k == 0 then 1 else 2 * Pow2(k - 1)
  }

  function Magnitude(v: int): nat { if v < 0 then -v else v }

  lemma {:induction false} Pow2Increases(j: nat, k: nat)
    requires j < k
    ensures Pow2(j) < Pow2(k)
  {
    if j > 0 { Pow2Increases(j - 1, k - 1); }
    else if k > 1 { Pow2Increases(0, k - 1); }
  }

  lemma {:induction false} Pow2Add(a: nat, b: nat)
    ensures Pow2(a + b) == Pow2(a) * Pow2(b)
  {
    if a > 0 {
      Pow2Add(a - 1, b);
      Assoc(2, Pow2(a - 1), Pow2(b));
      assert a + b - 1 == a - 1 + b;
    }
  }

  /** A value that already fits is not changed by reduction to the word. */
  lemma Fits(x: int, m: nat)
    requires 0 <= x < m
    ensures x % m == x
  {}

  lemma MulLe(a: int, b: int, k: nat)
    ensures a <= b ==> a * k <= b * k
  {}

  lemma MulNext(i: nat, n: nat, k: nat)
    requires i < n
    ensures i * k + k <= n * k
  {
    MulLe(i + 1, n, k);
    assert (i + 1) * k == i * k + k;
  }

  /** Cancelling a positive factor from an inequality. */
  lemma MulCancel(a: int, b: int, k: int)
    requires k > 0 && a * k < b * k
    ensures a < b
  {
    MulLe(b, a, k);
  }

  lemma Assoc(a: int, b: int, c: int)
    ensures (a * b) * c == a * (b * c) && (a * b) * c == b * (a * c)
  {}

  lemma DivDef(n: int, d: int)
    requires d > 0
    ensures (n / d) * d <= n < (n / d) * d + d
    ensures n >= 0 ==> n / d >= 0
  {}

  /** The quotient is pinned by its two inequalities. */
  lemma DivUnique(n: int, d: int, q: int)
    requires d > 0 && q * d <= n < q * d + d
    ensures n / d == q
  {
    DivDef(n, d);
    var p := n / d;
    MulLe(p + 1, q, d);
    MulLe(q + 1, p, d);
    assert (p + 1) * d == p * d + d;
    assert (q + 1) * d == q * d + d;
  }

  lemma QuotientBelow(m: nat, d: nat, b: nat)
    requires d > 0 && m < b * d
    ensures 0 <= m / d < b
  {
    DivDef(m, d);
    MulLe(b, m / d, d);
  }

  lemma DivDiv(n: nat, a: nat, b: nat)
    requires a > 0 && b > 0
    ensures a * b > 0 && n / a / b == n / (a * b)
  {
    var m := n / a;
    var q := m / b;
    DivDef(n, a);
    DivDef(m, b);
    MulLe(q * b, m, a);
    MulLe(m + 1, q * b + b, a);
    Assoc(q, b, a);
    assert (q * b + b) * a == q * (b * a) + b * a;
    assert (m + 1) * a == m * a + a;
    MulLe(1, b, a);
    DivUnique(n, a * b, q);
  }

  lemma ModUnique(x: int, m: int, q: int, r: int)
    requires m > 0 && x == q * m + r && 0 <= r < m
    ensures x % m == r && x / m == q
  {
    DivUnique(x, m, q);
  }

  /** The n numbers from p. */
  function Range(p: nat, n: nat): (s: set<nat>)
    ensures forall q :: q in s <==> p <= q < p + n
    decreases n
  {
    if n == 0 then {} else {p} + Range(p + 1, n - 1)
  }

  lemma AllIndices(s: set<nat>, n: nat)
    requires s <= Range(0, n) && |s| >= n
    ensures s == Range(0, n)
  {
    RangeSize(0, n);
    if s < Range(0, n) { SubsetSize(s, Range(0, n)); }
  }

  lemma {:induction false} RangeSize(p: nat, n: nat)
    ensures |Range(p, n)| == n
    decreases n
  {
    if n > 0 {
      RangeSize(p + 1, n - 1);
      assert p !in Range(p + 1, n - 1);
    }
  }

  lemma SubsetSize(s: set<nat>, t: set<nat>)
    requires s < t
    ensures |s| < |t|
  {
    var x :| x in t && x !in s;
    assert t == s + (t - s) && x in t - s;
    assert |t| == |s| + |t - s|;
  }
}
