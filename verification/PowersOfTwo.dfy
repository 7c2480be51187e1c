/** The bit tricks of lib/kernel/hash.c: clearing the lowest set bit, and what its repetition
    leaves. */
module PowersOfTwo {
  import opened Integers
  import opened Bits

  function TurnOffLeast1Bit(x: nat): nat
    requires x > 0
  {
    And(x, x - 1)
  }

  predicate IsPowerOf2(x: nat)
  {
    x != 0 && TurnOffLeast1Bit(x) == 0
  }

  lemma {:induction false} AndSelf(x: nat)
    ensures And(x, x) == x
  {
    if x > 0 { AndSelf(x / 2); }
  }

  /** Clearing the lowest set bit, by the parity of x. */
  lemma TurnOffByParity(x: nat)
    requires x > 0
    ensures x % 2 == 1 ==> TurnOffLeast1Bit(x) == x - 1
    ensures x % 2 == 0 ==> x / 2 > 0 && TurnOffLeast1Bit(x) == 2 * TurnOffLeast1Bit(x / 2)
  {
    if x % 2 == 1 {
      AndSelf(x / 2);
    } else {
      assert (x - 1) / 2 == x / 2 - 1;
    }
  }

  lemma {:induction false} TurnOffShrinks(x: nat)
    requires x > 0
    ensures TurnOffLeast1Bit(x) < x
  {
    TurnOffByParity(x);
    if x % 2 == 0 { TurnOffShrinks(x / 2); }
  }

  lemma {:induction false} PowersPass(k: nat)
    ensures IsPowerOf2(Pow2(k))
  {
    TurnOffByParity(Pow2(k));
    if k > 0 { PowersPass(k - 1); }
  }

  /** The test accepts exactly the powers of two. */
  lemma {:induction false} OnlyPowersPass(x: nat) returns (k: nat)
    requires IsPowerOf2(x)
    ensures x == Pow2(k)
  {
    TurnOffByParity(x);
    if x % 2 == 1 {
      k := 0;
    } else {
      k := OnlyPowersPass(x / 2);
      k := k + 1;
    }
  }

  /** A number that is not a power of two keeps its leading power of two. */
  lemma {:induction false} LeadingPowerStays(x: nat, k: nat)
    requires x > 0 && !IsPowerOf2(x) && Pow2(k) <= x
    ensures Pow2(k) <= TurnOffLeast1Bit(x)
  {
    TurnOffByParity(x);
    if x % 2 == 0 {
      if k > 0 { LeadingPowerStays(x / 2, k - 1); }
    } else if x == Pow2(k) {
      PowersPass(k);
    }
  }

  /** rehash's choice of bucket count. */
  method LeadingPower(start: nat) returns (n: nat, ghost k: nat)
    requires start > 0
    ensures n == Pow2(k) && n <= start
    ensures forall j :: Pow2(j) <= start ==> Pow2(j) <= n
  {
    n := start;
    while !IsPowerOf2(n)
      invariant 0 < n <= start
      invariant forall j :: Pow2(j) <= start ==> Pow2(j) <= n
      decreases n
    {
      TurnOffShrinks(n);
      forall j | Pow2(j) <= n ensures Pow2(j) <= TurnOffLeast1Bit(n) { LeadingPowerStays(n, j); }
      assert Pow2(0) <= start;
      n := TurnOffLeast1Bit(n);
    }
    k := OnlyPowersPass(n);
  }
}
