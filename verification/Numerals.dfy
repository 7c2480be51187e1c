/** Integers written in a base, with digit groups and leading zeros, as format_integer in
    lib/stdio.c writes them. */
module Numerals {
  import opened Integers

  /** An integer_base: the base, its digits, the letter of a hexadecimal prefix if any, and
      the size of a group. */
  datatype Base = Base(base: nat, digits: string, x: string, group: nat)

  const BASE_D := Base(10, "0123456789", "", 3)
  const BASE_O := Base(8, "01234567", "", 3)
  const BASE_X := Base(16, "0123456789abcdef", "x", 4)
  const BASE_XX := Base(16, "0123456789ABCDEF", "X", 4)

  predicate Known(b: Base)
  {
    b == BASE_D || b == BASE_O || b == BASE_X || b == BASE_XX
  }

  /** What a digit stands for, to a reader. */
  function DigitValue(c: char): (v: nat)
    ensures v < 16
  {
    if '0' <= c <= '9' then c as nat - '0' as nat
    else if 'a' <= c <= 'f' then c as nat - 'a' as nat + 10
    else if 'A' <= c <= 'F' then c as nat - 'A' as nat + 10
    else 0
  }

  /** What a reader takes a string of digits and commas for. */
  function Eval(b: Base, s: string): nat
  {
    if s == "" then 0
    else
      var rest := Eval(b, s[..|s| - 1]);
      if s[|s| - 1] == ',' then rest else rest * b.base + DigitValue(s[|s| - 1])
  }

  lemma DigitMeans(b: Base, i: nat)
    requires Known(b) && i < b.base
    ensures |b.digits| == b.base && DigitValue(b.digits[i]) == i && b.digits[i] != ','
  {
  }

  /** The digits of value from the last to the first, as the buffer holds them; done digits
      went before. */
  function Backwards(value: nat, b: Base, grouped: bool, done: nat): string
    requires Known(b)
  {
    if value == 0 then ""
    else
      (if grouped && done > 0 && done % b.group == 0 then "," else "")
      + [b.digits[value % b.base]] + Backwards(value / b.base, b, grouped, done + 1)
  }

  function Reverse(s: string): (r: string)
    ensures |r| == |s|
  {
    if s == "" then "" else Reverse(s[1..]) + [s[0]]
  }

  lemma {:induction false} ReverseAt(s: string, i: nat)
    requires i < |s|
    ensures Reverse(s)[i] == s[|s| - 1 - i]
  {
    if i < |s| - 1 { ReverseAt(s[1..], i); }
  }

  lemma {:induction false} ReverseAppend(s: string, c: char)
    ensures Reverse(s + [c]) == [c] + Reverse(s)
  {
    if s != "" {
      ReverseAppend(s[1..], c);
      assert (s + [c])[1..] == s[1..] + [c];
    }
  }

  /** The last digit, its comma if any, and the others. */
  lemma BackwardsStep(value: nat, b: Base, grouped: bool, done: nat) returns (k: nat)
    requires Known(b) && Backwards(value, b, grouped, done) != ""
    ensures value > 0 && k == if grouped && done > 0 && done % b.group == 0 then 2 else 1
    ensures var s := Backwards(value, b, grouped, done);
            && |s| >= k && (k == 2 ==> s[0] == ',')
            && DigitValue(s[k - 1]) == value % b.base && s[k - 1] != ','
            && s[k..] == Backwards(value / b.base, b, grouped, done + 1)
  {
    DigitMeans(b, value % b.base);
    hide Known;
    k := if grouped && done > 0 && done % b.group == 0 then 2 else 1;
    var d := b.digits[value % b.base];
    assert Backwards(value, b, grouped, done) ==
           (if k == 2 then [',', d] else [d]) + Backwards(value / b.base, b, grouped, done + 1);
  }

  /** Written out and read back, a value is itself. */
  lemma {:induction false} EvalDigits(value: nat, b: Base, grouped: bool, done: nat)
    requires Known(b)
    ensures Eval(b, Reverse(Backwards(value, b, grouped, done))) == value
    decreases value
  {
    NotEmpty(value, b, grouped, done);
    hide Backwards, Known, Eval;
    if value > 0 {
      var q := value / b.base;
      DivMod(value, b.base);
      Shrinks(value, b.base);
      EvalDigits(q, b, grouped, done + 1);
      EvalFirst(value, b, grouped, done);
    } else {
      EvalNone(b);
      assert Reverse("") == "";
    }
  }

  /** Evaluating one more digit, its comma ignored. */
  lemma EvalFirst(value: nat, b: Base, grouped: bool, done: nat)
    requires Known(b) && value > 0 && b.base > 0
    ensures Eval(b, Reverse(Backwards(value, b, grouped, done))) ==
            Eval(b, Reverse(Backwards(value / b.base, b, grouped, done + 1))) * b.base + value % b.base
  {
    NotEmpty(value, b, grouped, done);
    hide Backwards, Known, Eval;
    var s := Backwards(value, b, grouped, done);
    var k := BackwardsStep(value, b, grouped, done);
    EvalPush(b, Reverse(s[k..]), s[k - 1]);
    if k == 2 {
      assert s[1..][1..] == s[2..];
      EvalPush(b, Reverse(s[1..]), ',');
    }
  }

  lemma Shrinks(n: nat, d: nat)
    requires n > 0 && d > 1
    ensures n / d < n
  {
    DivMod(n, d);
    if n / d >= n { MulLe(2, d, n / d); }
  }

  lemma NotEmpty(value: nat, b: Base, grouped: bool, done: nat)
    requires Known(b)
    ensures value == 0 <==> Backwards(value, b, grouped, done) == ""
    ensures b.base > 1
  {
  }

  lemma EvalPush(b: Base, s: string, c: char)
    ensures Eval(b, s + [c]) == if c == ',' then Eval(b, s) else Eval(b, s) * b.base + DigitValue(c)
  {
    assert (s + [c])[..|s|] == s;
  }

  lemma EvalNone(b: Base)
    ensures Eval(b, "") == 0
  {
  }

  /** A longer numeral never stands for less, and with a digit at its end for at least the base
      times as much. */
  lemma {:induction false} EvalGrows(b: Base, s: string, n: nat)
    requires n <= |s| && b.base > 0
    ensures Eval(b, s[..n]) <= Eval(b, s)
    ensures n < |s| && s[|s| - 1] != ',' ==> Eval(b, s[..n]) * b.base <= Eval(b, s)
    decreases |s|
  {
    if n == |s| {
      assert s[..n] == s;
    } else {
      var t := s[..|s| - 1];
      assert t[..n] == s[..n];
      EvalGrows(b, t, n);
      MulLe(Eval(b, s[..n]), Eval(b, t), b.base);
      MulLe(1, b.base, Eval(b, t));
    }
  }

  /** Leading zeros change nothing. */
  lemma {:induction false} EvalZeros(b: Base, k: nat, s: string)
    ensures Eval(b, seq(k, i => '0') + s) == Eval(b, s)
  {
    var z := seq(k, i => '0');
    if s == "" {
      assert z + s == z;
      if k > 0 {
        assert z[..k - 1] == seq(k - 1, i => '0');
        EvalZeros(b, k - 1, s);
        assert seq(k - 1, i => '0') + s == seq(k - 1, i => '0');
      }
    } else {
      var n := |s| - 1;
      assert (z + s)[..k + n] == z + s[..n];
      EvalZeros(b, k, s[..n]);
    }
  }

  /** Where in the grouped numeral the digit after done others comes, its comma first. */
  function Place(g: nat, done: nat): nat
    requires g > 0
  {
    if done == 0 then 0 else done + (done - 1) / g
  }

  /** The place after q whole groups and r digits more. */
  lemma PlaceAt(g: nat, q: nat, r: nat)
    requires g >= 2 && r < g && q * g + r > 0
    ensures (q * g + r) % g == r
    ensures Place(g, q * g + r) == q * (g + 1) + r - (if r == 0 then 1 else 0)
  {
    var done := q * g + r;
    ModUnique(done, g, q, r);
    assert q * (g + 1) == q * g + q;
    if r == 0 {
      assert (q - 1) * g == q * g - g;
      ModUnique(done - 1, g, q - 1, g - 1);
    } else {
      ModUnique(done - 1, g, q, r - 1);
    }
  }

  lemma PlaceMod(g: nat, q: nat, r: nat)
    requires g >= 2 && r < g && q * g + r > 0
    ensures var p := q * (g + 1) + r - (if r == 0 then 1 else 0);
            && (p % (g + 1) == g <==> r == 0) && (r == 0 ==> (p + 1) % (g + 1) != g)
  {
    if r == 0 {
      assert (q - 1) * (g + 1) == q * (g + 1) - (g + 1);
      ModUnique(q * (g + 1) - 1, g + 1, q - 1, g);
      ModUnique(q * (g + 1), g + 1, q, 0);
    } else {
      ModUnique(q * (g + 1) + r, g + 1, q, r);
    }
  }

  lemma PlaceStep(g: nat, q: nat, r: nat)
    requires g >= 2 && r < g && q * g + r > 0
    ensures Place(g, q * g + r + 1) == Place(g, q * g + r) + (if r == 0 then 2 else 1)
  {
    hide Place;
    PlaceAt(g, q, r);
    if r + 1 < g {
      PlaceAt(g, q, r + 1);
    } else {
      assert (q + 1) * g == q * g + g && (q + 1) * (g + 1) == q * (g + 1) + g + 1;
      PlaceAt(g, q + 1, 0);
    }
  }

  lemma PlaceNext(g: nat, done: nat)
    requires g >= 2
    ensures var comma := done > 0 && done % g == 0;
            && Place(g, done + 1) == Place(g, done) + (if comma then 2 else 1)
            && (Place(g, done) % (g + 1) == g <==> comma)
            && (comma ==> (Place(g, done) + 1) % (g + 1) != g)
  {
    if done == 0 {
      PlaceAt(g, 0, 1);
      ModUnique(0, g + 1, 0, 0);
    } else {
      hide Place;
      var q, r := done / g, done % g;
      DivMod(done, g);
      PlaceAt(g, q, r);
      PlaceMod(g, q, r);
      PlaceStep(g, q, r);
    }
  }

  lemma DivMod(n: nat, d: nat)
    requires d > 0
    ensures n == n / d * d + n % d && n % d < d
  {
  }

  /** Grouped, every fourth (in base 16, every fifth) character from the right is a comma and
      no other is. */
  lemma {:induction false} CommaPlaces(value: nat, b: Base, done: nat, i: nat)
    requires Known(b) && i < |Backwards(value, b, true, done)|
    ensures var g := if b.base == 16 then 4 else 3;
            Backwards(value, b, true, done)[i] == ',' <==> (Place(g, done) + i) % (g + 1) == g
    decreases value
  {
    hide Place, Backwards;
    assert b.group == if b.base == 16 then 4 else 3;
    var rest := Backwards(value / b.base, b, true, done + 1);
    var k := BackwardsStep(value, b, true, done);
    PlaceNext(b.group, done);
    if i >= k {
      assert i - k < |rest| && Backwards(value, b, true, done)[i] == rest[i - k];
      CommaPlaces(value / b.base, b, done + 1, i - k);
      assert Place(b.group, done + 1) + (i - k) == Place(b.group, done) + i;
    }
  }

  /** At most two characters a digit, and at most 22 digits below 2^66. */
  lemma {:induction false} BackwardsFits(value: nat, b: Base, grouped: bool, done: nat, k: nat)
    requires Known(b) && value < Pow8(k)
    ensures |Backwards(value, b, grouped, done)| <= 2 * k
    decreases value
  {
    if value > 0 { BackwardsFits(value / b.base, b, grouped, done + 1, k - 1); }
  }

  function Pow8(k: nat): (r: nat)
    ensures r > 0
  {
    if k == 0 then 1 else 8 * Pow8(k - 1)
  }

  // ----- counting digits -----

  /** Characters that are not commas. */
  function DigitCount(s: string): nat
  {
    if s == "" then 0 else (if s[0] == ',' then 0 else 1) + DigitCount(s[1..])
  }

  /** The digits of value, without groups or leading zeros. */
  function NumDigits(value: nat, b: Base): nat
    requires Known(b)
  {
    |Backwards(value, b, false, 0)|
  }

  lemma {:induction false} CountConcat(s: string, t: string)
    ensures DigitCount(s + t) == DigitCount(s) + DigitCount(t)
    decreases |s|
  {
    if s == "" {
      assert s + t == t;
    } else {
      CountConcat(s[1..], t);
      assert (s + t)[1..] == s[1..] + t;
    }
  }

  lemma {:induction false} CountReverse(s: string)
    ensures DigitCount(Reverse(s)) == DigitCount(s)
    decreases |s|
  {
    if s != "" {
      CountReverse(s[1..]);
      CountConcat(Reverse(s[1..]), [s[0]]);
      assert [s[0]][1..] == "";
    }
  }

  lemma {:induction false} CountZeros(s: string)
    requires forall i :: 0 <= i < |s| ==> s[i] == '0'
    ensures DigitCount(s) == |s|
    decreases |s|
  {
    if s != "" { CountZeros(s[1..]); }
  }

  /** Without groups it does not matter how many digits went before. */
  lemma {:induction false} PlainSame(value: nat, b: Base, done: nat)
    requires Known(b)
    ensures Backwards(value, b, false, done) == Backwards(value, b, false, 0)
    decreases value
  {
    if value > 0 {
      PlainSame(value / b.base, b, done + 1);
      PlainSame(value / b.base, b, 1);
    }
  }

  lemma NumDigitsStep(value: nat, b: Base)
    requires Known(b) && value > 0
    ensures NumDigits(value, b) == 1 + NumDigits(value / b.base, b)
  {
    PlainSame(value / b.base, b, 1);
  }

  /** Groups add commas and no digits. */
  lemma {:induction false} GroupedDigitCount(value: nat, b: Base, grouped: bool, done: nat)
    requires Known(b)
    ensures DigitCount(Backwards(value, b, grouped, done)) == NumDigits(value, b)
    decreases value
  {
    if value > 0 {
      GroupedDigitCount(value / b.base, b, grouped, done + 1);
      NumDigitsStep(value, b);
      var _ := StepCount(value, b, grouped, done);
    }
  }

  lemma StepCount(value: nat, b: Base, grouped: bool, done: nat) returns (k: nat)
    requires Known(b) && value > 0
    ensures k == if grouped && done > 0 && done % b.group == 0 then 2 else 1
    ensures var rest := Backwards(value / b.base, b, grouped, done + 1);
            && |Backwards(value, b, grouped, done)| == k + |rest|
            && DigitCount(Backwards(value, b, grouped, done)) == 1 + DigitCount(rest)
  {
    NotEmpty(value, b, grouped, done);
    hide Backwards, Known;
    k := BackwardsStep(value, b, grouped, done);
    var s := Backwards(value, b, grouped, done);
    assert s == s[..k] + s[k..];
    CountConcat(s[..k], s[k..]);
    if k == 2 { assert s[..2] == [',', s[1]]; assert s[..2][1..] == [s[1]]; }
    else { assert s[..1] == [s[0]]; }
    assert DigitCount([s[k - 1]]) == 1 by { assert [s[k - 1]][1..] == ""; }
  }

  /** Grouped, a number of d digits after done others takes their places, commas included. */
  lemma {:induction false} GroupedLength(value: nat, b: Base, done: nat)
    requires Known(b)
    ensures Place(b.group, done) + |Backwards(value, b, true, done)| == Place(b.group, done + NumDigits(value, b))
    decreases value
  {
    hide Place, Backwards;
    NotEmpty(value, b, true, done);
    NotEmpty(value, b, false, 0);
    if value > 0 {
      NumDigitsStep(value, b);
      var _ := StepCount(value, b, true, done);
      PlaceNext(b.group, done);
      GroupedLength(value / b.base, b, done + 1);
    }
  }

  /** There are commas exactly from the digit after the first group on. */
  lemma {:induction false} CommasFrom(value: nat, b: Base, done: nat)
    requires Known(b) && done <= b.group
    ensures |Backwards(value, b, true, done)| >= NumDigits(value, b)
    ensures |Backwards(value, b, true, done)| == NumDigits(value, b) <==>
            done + NumDigits(value, b) <= b.group || value == 0
    decreases value
  {
    if value > 0 {
      NumDigitsStep(value, b);
      var _ := StepCount(value, b, true, done);
      LengthAtLeast(value / b.base, b, done + 1);
      if done < b.group { CommasFrom(value / b.base, b, done + 1); }
      NoGroupYet(b, done);
    }
  }

  lemma NoGroupYet(b: Base, done: nat)
    requires Known(b) && done <= b.group
    ensures done > 0 && done % b.group == 0 <==> done == b.group
  {
  }

  lemma {:induction false} LengthAtLeast(value: nat, b: Base, done: nat)
    requires Known(b)
    ensures |Backwards(value, b, true, done)| >= NumDigits(value, b)
    decreases value
  {
    if value > 0 {
      NumDigitsStep(value, b);
      var _ := StepCount(value, b, true, done);
      LengthAtLeast(value / b.base, b, done + 1);
    }
  }

  /** The first digit of a number is not zero. */
  lemma {:induction false} TopDigit(value: nat, b: Base, grouped: bool, done: nat)
    requires Known(b) && value > 0
    ensures var s := Backwards(value, b, grouped, done); s != "" && s[|s| - 1] != '0'
    decreases value
  {
    var s := Backwards(value, b, grouped, done);
    NotEmpty(value, b, grouped, done);
    var k := BackwardsStep(value, b, grouped, done);
    var rest := Backwards(value / b.base, b, grouped, done + 1);
    if value / b.base > 0 {
      TopDigit(value / b.base, b, grouped, done + 1);
      assert s[|s| - 1] == rest[|rest| - 1];
    } else {
      NotEmpty(0, b, grouped, done + 1);
      assert DigitValue('0') == 0 && value % b.base == value;
      assert s[|s| - 1] == s[k - 1];
    }
  }
}
