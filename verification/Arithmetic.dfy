/** 64-bit division built from the x86 DIVL instruction (lib/arithmetic.c).

    Machine words are natural numbers below 2^32 or 2^64; every C operator that can wrap is
    written with its modulus.  DIVL itself is modelled by its stated effect: it traps when
    the divisor is zero or the quotient needs more than 32 bits. */
module Arithmetic {
  import opened Integers

  const B32: nat := 0x1_0000_0000
  const B64: nat := 0x1_0000_0000_0000_0000
  const INT32_MIN: int := -0x8000_0000
  const INT32_MAX: int := 0x7fff_ffff
  const INT64_MIN: int := -0x8000_0000_0000_0000
  const INT64_MAX: int := 0x7fff_ffff_ffff_ffff

  type Word32 = x: nat | x < B32
  type Word64 = x: nat | x < B64
  type Int64 = x: int | INT64_MIN <= x <= INT64_MAX

  /** The outcome of a computation that may raise #DE. */
  datatype Outcome<+T> = Value(value: T) | DivideError

  /** C's conversion of any integer to int64_t, and to int32_t, on a two's complement machine. */
  function ToInt64(x: int): (r: int)
    ensures INT64_MIN <= r <= INT64_MAX && (r - x) % B64 == 0
  {
    var m := x % B64;
    if m > INT64_MAX then m - B64 else m
  }

  function ToInt32(x: int): (r: int)
    ensures INT32_MIN <= r <= INT32_MAX && (r - x) % B32 == 0
  {
    var m := x % B32;
    if m > INT32_MAX then m - B32 else m
  }

  /** The DIVL instruction. */
  function Divl(n: Word64, d: Word32): Outcome<Word32>
  {
    if d == 0 || n / d >= B32 then DivideError else Value(n / d)
  }

  function Shr(x: nat, k: nat): nat
  {
    DivDef(x, Pow2(k));
    x / Pow2(k)
  }

  /** Left shift, dropping the bits that leave the word. */
  function Shl64(x: Word64, k: nat): Word64 { (x * Pow2(k)) % B64 }

  /** The leading-zero count, by the same five halvings as the source. */
  function Nlz(x: Word32): nat
  {
    if x <= 0x0000FFFF then Nlz8(16, x * 65536 % B32) else Nlz8(0, x)
  }

  function Nlz8(n: nat, x: Word32): nat
  {
    if x <= 0x00FFFFFF then Nlz4(n + 8, x * 256 % B32) else Nlz4(n, x)
  }

  function Nlz4(n: nat, x: Word32): nat
  {
    if x <= 0x0FFFFFFF then Nlz2(n + 4, x * 16 % B32) else Nlz2(n, x)
  }

  function Nlz2(n: nat, x: Word32): nat
  {
    if x <= 0x3FFFFFFF then Nlz1(n + 2, x * 4 % B32) else Nlz1(n, x)
  }

  function Nlz1(n: nat, x: Word32): nat
  {
    if x <= 0x7FFFFFFF then n + 1 else n
  }

  /** The shifted estimate divl (n >> 1, (d << s) >> 32) >> (31 - s). */
  function Estimate(n: Word64, d: Word64): Outcome<nat>
    requires d >= B32
  {
    var s := Nlz(d / B32);
    match Divl(n / 2, Shl64(d, s) / B32)
    case DivideError => DivideError
    case Value(q) => Value(Shr(q, if s <= 31 then 31 - s else 0))
  }

  /** Divisors that fit 32 bits: two divisions, high word first. */
  function UDivBy32(n: Word64, d0: Word32): Outcome<Word64>
  {
    if d0 == 0 then DivideError else
    var n1, n0 := n / B32, n % B32;
    match Divl((B32 * (n1 % d0) + n0) % B64, d0)
    case DivideError => DivideError
    case Value(q) => Value((q + B32 * (n1 / d0)) % B64)
  }

  /** Wider divisors: estimate, then correct by at most one. */
  function UDivBy64(n: Word64, d: Word64): Outcome<Word64>
    requires d >= B32
  {
    match Estimate(n, d)
    case DivideError => DivideError
    case Value(q) => Value(if (n - (q - 1) * d) % B64 < d then (q - 1) % B64 else q % B64)
  }

  function UDiv64(n: Word64, d: Word64): Outcome<Word64>
  {
    if d / B32 == 0 then UDivBy32(n, d)
    else if n < d then Value(0)
    else UDivBy64(n, d)
  }

  /** The remainder is returned as uint32_t. */
  function UMod64(n: Word64, d: Word64): Outcome<Word32>
  {
    match UDiv64(n, d)
    case DivideError => DivideError
    case Value(q) => Value(((n - d * q) % B64) % B32)
  }

  /** n >= 0 ? (uint64_t) n : -(uint64_t) n */
  function Abs64(n: Int64): Word64
  {
    var a: int := n;
    if a >= 0 then a else -a
  }

  function SDiv64(n: Int64, d: Int64): Outcome<int>
  {
    match UDiv64(Abs64(n), Abs64(d))
    case DivideError => DivideError
    case Value(q) => Value(if (n < 0) == (d < 0) then ToInt64(q) else ToInt64(-ToInt64(q)))
  }

  /** The remainder is returned as int32_t. */
  function SMod64(n: Int64, d: Int64): Outcome<int>
  {
    match SDiv64(n, d)
    case DivideError => DivideError
    case Value(q) => Value(ToInt32(ToInt64(n - d * q)))
  }

  // ----- leading zeros

  lemma Pow2Consts()
    ensures Pow2(1) == 2 && Pow2(2) == 4 && Pow2(4) == 16 && Pow2(8) == 256 && Pow2(16) == 65536
  {
    assert Pow2(4) == 4 * Pow2(2);
    assert Pow2(8) == 16 * Pow2(4) by { assert Pow2(6) == 4 * Pow2(4); }
    assert Pow2(12) == 16 * Pow2(8) by { assert Pow2(10) == 4 * Pow2(8); }
    assert Pow2(16) == 16 * Pow2(12) by { assert Pow2(14) == 4 * Pow2(12); }
  }

  /** One halving: shifting y = x * 2^n left by k gives x * 2^(n+k). */
  lemma NlzStep(x: nat, n: nat, y: nat, k: nat)
    requires y == x * Pow2(n)
    ensures y * Pow2(k) == x * Pow2(n + k)
  {
    Pow2Add(n, k);
    assert (x * Pow2(n)) * Pow2(k) == x * (Pow2(n) * Pow2(k));
  }

  // One lemma for each halving, the last first: y is x shifted left by n so far.

  lemma Nlz1Normalises(x: nat, n: nat, y: Word32)
    requires y == x * Pow2(n) && y >= B32 / 4
    ensures n <= Nlz1(n, y) <= n + 1 && B32 / 2 <= x * Pow2(Nlz1(n, y)) < B32
  {
    if y <= 0x7FFFFFFF { Pow2Consts(); NlzStep(x, n, y, 1); }
  }

  lemma Nlz2Normalises(x: nat, n: nat, y: Word32)
    requires y == x * Pow2(n) && y >= 0x10000000
    ensures n <= Nlz2(n, y) <= n + 3 && B32 / 2 <= x * Pow2(Nlz2(n, y)) < B32
  {
    hide Nlz1;
    if y <= 0x3FFFFFFF {
      Pow2Consts();
      NlzStep(x, n, y, 2);
      Fits(y * 4, B32);
      Nlz1Normalises(x, n + 2, y * 4);
    } else {
      Nlz1Normalises(x, n, y);
    }
  }

  lemma Nlz4Normalises(x: nat, n: nat, y: Word32)
    requires y == x * Pow2(n) && y >= 0x1000000
    ensures n <= Nlz4(n, y) <= n + 7 && B32 / 2 <= x * Pow2(Nlz4(n, y)) < B32
  {
    hide Nlz2;
    if y <= 0x0FFFFFFF {
      Pow2Consts();
      NlzStep(x, n, y, 4);
      Fits(y * 16, B32);
      Nlz2Normalises(x, n + 4, y * 16);
    } else {
      Nlz2Normalises(x, n, y);
    }
  }

  lemma Nlz8Normalises(x: nat, n: nat, y: Word32)
    requires y == x * Pow2(n) && y >= 0x10000
    ensures n <= Nlz8(n, y) <= n + 15 && B32 / 2 <= x * Pow2(Nlz8(n, y)) < B32
  {
    hide Nlz4;
    if y <= 0x00FFFFFF {
      Pow2Consts();
      NlzStep(x, n, y, 8);
      Fits(y * 256, B32);
      Nlz4Normalises(x, n + 8, y * 256);
    } else {
      Nlz4Normalises(x, n, y);
    }
  }

  /** Normalising x by its leading-zero count sets the top bit and loses no bit. */
  lemma NlzNormalises(x: Word32)
    requires x > 0
    ensures Nlz(x) <= 31
    ensures B32 / 2 <= x * Pow2(Nlz(x)) < B32
  {
    hide Nlz8;
    assert x == x * Pow2(0);
    if x <= 0x0000FFFF {
      Pow2Consts();
      NlzStep(x, 0, x, 16);
      Fits(x * 65536, B32);
      Nlz8Normalises(x, 16, x * 65536);
    } else {
      Nlz8Normalises(x, 0, x);
    }
  }

  // ----- the small-divisor branch

  /** The identity behind the two-step division: the low division sees a numerator below
      d * 2^32, so its quotient fits 32 bits. */
  lemma TwoStepDivision(n1: Word32, n0: Word32, d: Word32)
    requires d > 0
    ensures B32 * (n1 % d) + n0 < B64
    ensures (B32 * (n1 % d) + n0) / d < B32
    ensures (B32 * (n1 % d) + n0) / d + B32 * (n1 / d) == (B32 * n1 + n0) / d
  {
    var r, t := n1 % d, n1 / d;
    var m := B32 * r + n0;
    assert n1 == t * d + r && 0 <= r < d;
    assert m < B32 * d;
    QuotientBelow(m, d, B32);
    var q := m / d;
    DivDef(m, d);
    assert (q + B32 * t) * d == q * d + B32 * (t * d);
    DivUnique(B32 * n1 + n0, d, q + B32 * t);
  }

  lemma SmallDivisor(n: Word64, d: Word32)
    requires d > 0
    ensures UDivBy32(n, d) == Value(n / d)
  {
    var n1, n0 := n / B32, n % B32;
    TwoStepDivision(n1, n0, d);
    var m := B32 * (n1 % d) + n0;
    var q, t := m / d, n1 / d;
    assert q + B32 * t == n / d;
    QuotientBelow(n, d, B64);
    Fits(n / d, B64);
    Fits(m, B64);
  }

  // ----- the large-divisor branch

  lemma Powers(s: nat)
    requires s <= 31
    ensures Pow2(s) * Pow2(32 - s) == B32
    ensures Pow2(32 - s) == 2 * Pow2(31 - s)
    ensures (Pow2(32 - s) == 2 && Pow2(s) == B32 / 2) || Pow2(32 - s) >= 4
  {
    Pow2Consts();
    Pow2Add(16, 16);
    Pow2Add(s, 32 - s);
    if s < 31 { assert Pow2(32 - s) == 4 * Pow2(30 - s); }
  }

  /** The high word d1 alone: d1 * p lies in [2^31, 2^32) and so does (d1 + 1) * p - 1. */
  lemma HighWord(d1: Word32, p: nat, r: nat)
    requires p > 0 && p * r == B32 && d1 * p < B32
    ensures (d1 + 1) * p <= B32
  {
    MulCancel(d1, r, p);
    MulLe(d1 + 1, r, p);
  }

  /** Shifting d left by s puts its top bit at bit 63 and loses nothing. */
  lemma Normalised(d: Word64, s: nat, p: nat)
    requires d >= B32 && s == Nlz(d / B32) && p == Pow2(s)
    ensures s <= 31 && B64 / 2 <= d * p < B64
  {
    hide Nlz;
    var d1 := d / B32;
    NlzNormalises(d1);
    Powers(s);
    HighWord(d1, p, Pow2(32 - s));
    Shifted(d, d1, p);
  }

  lemma Shifted(d: nat, d1: nat, p: nat)
    requires p > 0 && d1 * B32 <= d < (d1 + 1) * B32
    requires B32 / 2 <= d1 * p && (d1 + 1) * p <= B32
    ensures B64 / 2 <= d * p < B64
  {
    MulLe(d1 * B32, d, p);
    MulLe(d + 1, (d1 + 1) * B32, p);
    Assoc(d1, B32, p);
    Assoc(d1 + 1, B32, p);
    assert (d + 1) * p == d * p + p;
  }

  /** The truncated divisor dd = v1 * 2^(32-s) lies less than 2^(32-s) below d. */
  lemma TruncatedDivisor(d: nat, p: nat, r: nat, v1: nat)
    requires p > 0 && p * r == B32 && v1 == d * p / B32
    ensures v1 * r <= d <= v1 * r + r - 1
  {
    DivDef(d * p, B32);
    Assoc(v1, r, p);
    assert v1 * B32 == (v1 * r) * p;
    assert (v1 * r + r) * p == (v1 * r) * p + B32;
    MulCancel(d, v1 * r + r, p);
    MulLe(d + 1, v1 * r, p);
    assert (d + 1) * p == d * p + p;
  }

  /** Since d >= 2^(63-s), the quotient is below 2^(s+1). */
  lemma QuotientSmall(n: Word64, d: nat, p: nat)
    requires p > 0 && B64 / 2 <= d * p && d > 0
    ensures 0 <= n / d < 2 * p
  {
    assert (2 * p) * d == 2 * (d * p);
    QuotientBelow(n, d, 2 * p);
  }

  /** The accumulated error (q + 1) * (d - dd) is at most one truncated divisor. */
  lemma ErrorSmall(q: nat, gap: nat, dd: nat, p: nat, r: nat)
    requires q + 1 <= 2 * p && gap <= r - 1 && p * r == B32 && (B32 / 2) * r <= dd
    requires (r == 2 && p == B32 / 2) || r >= 4
    ensures (q + 1) * gap <= dd
  {
    MulLe(q + 1, 2 * p, gap);
    MulLe(gap, r - 1, 2 * p);
    assert gap * (2 * p) == (2 * p) * gap;
    assert (r - 1) * (2 * p) == 2 * B32 - 2 * p;
  }

  lemma EstimateNotBelow(n: nat, d: nat, dd: nat)
    requires 0 < dd <= d
    ensures n / d <= n / dd
  {
    var q, e := n / d, n / dd;
    DivDef(n, d);
    DivDef(n, dd);
    MulLe(dd, d, q);
    MulLe(e + 1, q, dd);
    assert (e + 1) * dd == e * dd + dd;
  }

  /** With (q + 1) * (d - dd) <= dd, n / dd overshoots n / d by at most one. */
  lemma EstimateNotFarAbove(n: nat, d: nat, dd: nat)
    requires 0 < dd <= d && (n / d + 1) * (d - dd) <= dd
    ensures n / dd <= n / d + 1
  {
    var q1 := n / d + 1;
    DivDef(n, d);
    assert q1 * (d - dd) == q1 * d - q1 * dd;
    assert q1 * d == (n / d) * d + d;
    assert (q1 + 1) * dd == q1 * dd + dd;
    QuotientBelow(n, dd, q1 + 1);
  }

  /** The hard part: DIVL does not trap and the estimate is the quotient or one more. */
  lemma EstimateBound(n: Word64, d: Word64)
    requires d >= B32
    ensures Estimate(n, d).Value?
    ensures n / d <= Estimate(n, d).value <= n / d + 1
  {
    hide Nlz;
    var s := Nlz(d / B32);
    var p := Pow2(s);
    Normalised(d, s, p);
    var r, h := Pow2(32 - s), Pow2(31 - s);
    Powers(s);
    var v1 := d * p / B32;
    TruncatedDivisor(d, p, r, v1);
    var dd := v1 * r;
    assert B32 / 2 <= v1 < B32;
    QuotientSmall(n, d, p);
    MulLe(B32 / 2, v1, r);
    ErrorSmall(n / d, d - dd, dd, p, r);
    EstimateNotBelow(n, d, dd);
    EstimateNotFarAbove(n, d, dd);
    EstimateIs(n, d, s, v1, r, h);
  }

  /** The three shifts together divide n by dd. */
  lemma EstimateIs(n: Word64, d: Word64, s: nat, v1: Word32, r: nat, h: nat)
    requires d >= B32 && s == Nlz(d / B32) && s <= 31 && d * Pow2(s) < B64
    requires v1 == d * Pow2(s) / B32 && B32 / 2 <= v1
    requires h == Pow2(31 - s) && r == 2 * h
    ensures v1 * r > 0 && Estimate(n, d) == Value(n / (v1 * r))
  {
    hide Nlz;
    Fits(d * Pow2(s), B64);
    MulLe(B32 / 2, v1, B32);
    QuotientBelow(n / 2, v1, B32);
    DivDiv(n / 2, v1, h);
    DivDiv(n, 2, v1 * h);
    Assoc(2, v1, h);
    assert v1 * r == 2 * (v1 * h);
  }

  /** Subtracting once corrects the estimate. */
  lemma Corrected(n: Word64, d: Word64, e: nat)
    requires B32 <= d <= n && n / d <= e <= n / d + 1
    ensures ((n - (e - 1) * d) % B64 < d) <==> e == n / d + 1
    ensures 1 <= n / d < B32
  {
    var q := n / d;
    DivDef(n, d);
    QuotientBelow(n, d, B32);
    MulLe(q + 1, 1, d);
    assert (q + 1) * d == q * d + d;
    MulLe(1, e, d);
    assert (e - 1) * d == e * d - d;
    Fits(n - (e - 1) * d, B64);
  }

  /** udiv64 is floor division for every 64-bit numerator and every divisor but zero. */
  lemma UDiv64Correct(n: Word64, d: Word64)
    ensures d == 0 ==> UDiv64(n, d) == DivideError
    ensures d > 0 ==> UDiv64(n, d) == Value(n / d)
  {
    if 0 < d < B32 {
      SmallDivisor(n, d);
    } else if d >= B32 && n < d {
      DivUnique(n, d, 0);
    } else if d >= B32 {
      hide Estimate;
      EstimateBound(n, d);
      var e := Estimate(n, d).value;
      Corrected(n, d, e);
      Fits(n / d, B64);
    }
  }

  /** umod64 gives the true remainder exactly when that remainder fits 32 bits. */
  lemma UMod64Exact(n: Word64, d: Word64)
    requires d > 0
    ensures UMod64(n, d) == Value(n % d) <==> n % d < B32
    ensures UMod64(n, d) == Value(n % d % B32)
  {
    hide UDiv64;
    UDiv64Correct(n, d);
    assert n - d * (n / d) == n % d;
    Fits(n % d, B64);
  }

  // ----- signed division

  /** Division truncating toward zero, as section 6.5.5 of ISO/IEC 9899:1999 demands. */
  function TruncDiv(n: int, d: int): int
    requires d != 0
  {
    var m := Magnitude(n) / Magnitude(d);
    if (n < 0) == (d < 0) then m else -m
  }

  /** What truncation toward zero means: the remainder takes the sign of the dividend and is
      smaller in magnitude than the divisor. */
  lemma TruncDivMeaning(n: int, d: int)
    requires d != 0
    ensures Magnitude(n - d * TruncDiv(n, d)) < Magnitude(d)
    ensures n >= 0 ==> 0 <= n - d * TruncDiv(n, d) <= n
    ensures n <= 0 ==> n <= n - d * TruncDiv(n, d) <= 0
  {
    var m := Magnitude(n) / Magnitude(d);
    DivDef(Magnitude(n), Magnitude(d));
    MulLe(0, m, Magnitude(d));
    SignedProduct(d, m);
    assert TruncDiv(n, d) == if (n >= 0) == (d > 0) then m else 0 - m;
    hide TruncDiv;
  }

  lemma SignedProduct(d: int, m: nat)
    ensures d * m == (if d > 0 then 1 else -1) * (m * Magnitude(d))
    ensures d * (0 - m) == (if d > 0 then -1 else 1) * (m * Magnitude(d))
  {
  }

  /** The conversion is the identity exactly on values in range, and 2^63 becomes INT64_MIN. */
  lemma ToInt64Value(x: int)
    ensures ToInt64(x) == x <==> INT64_MIN <= x <= INT64_MAX
    ensures x == -INT64_MIN || x == 2 * INT64_MIN ==> ToInt64(x) == if x > 0 then INT64_MIN else 0
  {
    if 0 <= x < B64 { Fits(x, B64); }
    if INT64_MIN <= x < 0 { Fits(x + B64, B64); }
  }

  lemma ToInt32Value(x: int)
    ensures ToInt32(x) == x <==> INT32_MIN <= x <= INT32_MAX
  {}

  /** sdiv64 truncates toward zero for exactly the operands whose quotient fits: all but
      INT64_MIN / -1, on which it returns INT64_MIN.  Negating the quotient 2^63 of
      INT64_MIN / 1 is taken to wrap, which ISO C leaves undefined. */
  lemma SDiv64Truncates(n: Int64, d: Int64)
    requires d != 0
    ensures SDiv64(n, d) == Value(TruncDiv(n, d)) <==> !(n == INT64_MIN && d == -1)
    ensures n == INT64_MIN && d == -1 ==> SDiv64(n, d) == Value(INT64_MIN)
  {
    hide UDiv64, ToInt64;
    UDiv64Correct(Abs64(n), Abs64(d));
    var a, b := Magnitude(n), Magnitude(d);
    var q: int := a / b;
    DivDef(a, b);
    MulLe(1, b, q);
    MulLe(2, b, q);
    assert b * q == q * b;
    if b == 1 { assert q == a; }
    ToInt64Value(q);
    ToInt64Value(-q);
    ToInt64Value(-INT64_MIN);
  }

  lemma SDiv64ByZero(n: Int64)
    ensures SDiv64(n, 0) == DivideError && SMod64(n, 0) == DivideError
  {
    hide UDiv64;
    UDiv64Correct(Abs64(n), 0);
  }

  /** smod64 gives the truncated remainder exactly when it fits 32 bits, also for INT64_MIN
      and -1, where the wrapped quotient and product cancel. */
  lemma SMod64Exact(n: Int64, d: Int64)
    requires d != 0
    ensures SMod64(n, d) == Value(n - d * TruncDiv(n, d))
            <==> INT32_MIN <= n - d * TruncDiv(n, d) <= INT32_MAX
  {
    hide SDiv64, TruncDiv, ToInt64, ToInt32;
    SDiv64Truncates(n, d);
    TruncDivMeaning(n, d);
    var t := n - d * TruncDiv(n, d);
    ToInt64Value(t);
    ToInt32Value(t);
    if n == INT64_MIN && d == -1 {
      assert n - d * INT64_MIN == 2 * INT64_MIN;
      ToInt64Value(2 * INT64_MIN);
      ToInt32Value(0);
    }
  }
}
