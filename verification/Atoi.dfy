/** atoi (lib/stdlib.c), and that it undoes the decimal conversions of printf. */
module Atoi {
  import opened Integers
  import opened Numerals
  import opened Printf

  newtype int32 = x: int | -0x8000_0000 <= x < 0x8000_0000

  predicate IsSpace(c: char)
  {
    c == ' ' || c as int == 12 || c == '\n' || c == '\r' || c == '\t' || c as int == 11
  }

  predicate IsDecimal(c: char) { '0' <= c <= '9' }

  predicate AllSpace(s: string) { forall i :: 0 <= i < |s| ==> IsSpace(s[i]) }
  predicate AllDecimal(s: string) { forall i :: 0 <= i < |s| ==> IsDecimal(s[i]) }

  function Spaces(s: string): (n: nat)
    ensures n <= |s| && (forall i :: 0 <= i < n ==> IsSpace(s[i])) && (n < |s| ==> !IsSpace(s[n]))
  {
    if s == "" || !IsSpace(s[0]) then 0 else 1 + Spaces(s[1..])
  }

  function DigitRun(s: string): (n: nat)
    ensures n <= |s| && (forall i :: 0 <= i < n ==> IsDecimal(s[i])) && (n < |s| ==> !IsDecimal(s[n]))
  {
    if s == "" || !IsDecimal(s[0]) then 0 else 1 + DigitRun(s[1..])
  }

  /** The number a string starts with: white space, a sign, and digits up to anything else. */
  function Number(s: string): int
  {
    SignedNumber(s[Spaces(s)..])
  }

  function SignedNumber(t: string): int
  {
    if t != "" && t[0] == '-' then 0 - Unsigned(t[1..])
    else if t != "" && t[0] == '+' then Unsigned(t[1..])
    else Unsigned(t)
  }

  function Unsigned(u: string): nat
  {
    Eval(BASE_D, u[..DigitRun(u)])
  }

  /** atoi on the string s, whose null byte follows it: no step leaves the range of an int
      when the number itself does not. */
  method ParseInt(s: string) returns (value: int32)
    requires -0x8000_0000 <= Number(s) < 0x8000_0000
    ensures value as int == Number(s)
  {
    hide Unsigned, Spaces;
    var p := SkipSpaces(s);
    ghost var t := s[p..];
    var negative := false;
    if p < |s| && s[p] == '+' {
      p := p + 1;
      assert s[p..] == t[1..];
    } else if p < |s| && s[p] == '-' {
      negative, p := true, p + 1;
      assert s[p..] == t[1..];
    }
    value := ParseDigits(s, p);
    if !negative { value := -value; }
  }

  /** Skipping white space. */
  method SkipSpaces(s: string) returns (p: nat)
    ensures p == Spaces(s)
  {
    p := 0;
    while p < |s| && IsSpace(s[p])
      invariant p <= |s| && forall i :: 0 <= i < p ==> IsSpace(s[i])
    {
      p := p + 1;
    }
    SpacesIs(s, p);
  }

  /** The digit loop, which counts down from zero. */
  method ParseDigits(s: string, p: nat) returns (value: int32)
    requires p <= |s| && Unsigned(s[p..]) <= 0x8000_0000
    ensures value as int == 0 - Unsigned(s[p..])
  {
    hide Eval;
    ghost var u := s[p..];
    ghost var run := u[..DigitRun(u)];
    value := 0;
    var q := p;
    EvalNone(BASE_D);
    assert u[..0] == "";
    while q < |s| && IsDecimal(s[q])
      invariant p <= q <= p + DigitRun(u)
      invariant value as int == 0 - Eval(BASE_D, u[..q - p])
    {
      assert s[q] == u[q - p] && q - p < DigitRun(u);
      var d := s[q] as int - '0' as int;
      EvalPush(BASE_D, u[..q - p], s[q]);
      assert u[..q - p + 1] == u[..q - p] + [s[q]];
      EvalGrows(BASE_D, run, q - p + 1);
      assert run[..q - p + 1] == u[..q - p + 1];
      value := value * 10 - d as int32;
      q := q + 1;
    }
    assert q - p == DigitRun(u) by { assert q < |s| ==> s[q] == u[q - p]; }
  }

  lemma SpacesIs(s: string, k: nat)
    requires k <= |s| && (forall i :: 0 <= i < k ==> IsSpace(s[i])) && (k < |s| ==> !IsSpace(s[k]))
    ensures Spaces(s) == k
  {
  }

  lemma DigitRunIs(s: string, k: nat)
    requires k <= |s| && AllDecimal(s[..k]) && (k < |s| ==> !IsDecimal(s[k]))
    ensures DigitRun(s) == k
  {
    assert forall i :: 0 <= i < k ==> s[..k][i] == s[i];
  }

  /** Any run of the six white-space characters is skipped. */
  lemma SpacesSkipped(space: string, t: string)
    requires forall c :: c in space ==> c in [' ', '\t', '\n', 11 as char, 12 as char, '\r']
    ensures Number(space + t) == Number(t)
  {
    hide SignedNumber;
    var k := Spaces(t);
    assert forall i :: 0 <= i < |space| ==> space[i] in space;
    assert forall i :: |space| <= i < |space| + |t| ==> (space + t)[i] == t[i - |space|];
    SpacesIs(space + t, |space| + k);
    assert (space + t)[|space| + k..] == t[k..];
  }

  /** And nothing else: what starts with neither white space, a sign nor a digit is zero. */
  lemma NothingElseSkipped(t: string)
    requires t != "" && t[0] !in [' ', '\t', '\n', 11 as char, 12 as char, '\r', '+', '-'] && t[0] !in "0123456789"
    ensures Number(t) == 0
  {
    SpacesIs(t, 0);
    DigitRunIs(t, 0);
    EvalNone(BASE_D);
    assert t[..0] == "" && t[0..] == t;
    hide Eval;
  }

  // ----- atoi after printf -----

  lemma AfterSpaces(spaces: string, t: string)
    requires AllSpace(spaces) && (t == "" || !IsSpace(t[0]))
    ensures Number(spaces + t) == SignedNumber(t)
  {
    hide SignedNumber;
    SpacesIs(spaces + t, |spaces|);
    assert (spaces + t)[|spaces|..] == t;
  }

  lemma UnsignedIs(digits: string, tail: string)
    requires AllDecimal(digits) && AllSpace(tail)
    ensures Unsigned(digits + tail) == Eval(BASE_D, digits)
  {
    hide Eval;
    var u := digits + tail;
    assert u[..|digits|] == digits;
    DigitRunIs(u, |digits|);
  }

  /** Spaces, a sign, digits and spaces are read as the digits with the sign. */
  lemma NumberIs(spaces: string, sign: string, digits: string, tail: string)
    requires AllSpace(spaces) && AllSpace(tail) && AllDecimal(digits)
    requires sign == "" || sign == "+" || sign == "-"
    ensures Number(spaces + (sign + (digits + tail))) ==
            if sign == "-" then 0 - Eval(BASE_D, digits) else Eval(BASE_D, digits)
  {
    hide Eval, Number, Unsigned;
    var u := digits + tail;
    UnsignedIs(digits, tail);
    if sign == "" {
      assert sign + u == u;
      if digits == "" {
        assert u == tail && spaces + u == (spaces + tail) + "";
        AfterSpaces(spaces + tail, "");
        UnsignedIs("", "");
        assert "" + "" == "" && digits == "";
      } else {
        assert u[0] == digits[0];
        AfterSpaces(spaces, u);
      }
    } else {
      var t := sign + u;
      assert t[0] == sign[0] && t[1..] == u;
      AfterSpaces(spaces, t);
    }
  }

  lemma {:induction false} PlainDigits(value: nat, done: nat)
    ensures AllDecimal(Backwards(value, BASE_D, false, done))
    decreases value
  {
    if value > 0 {
      PlainDigits(value / 10, done + 1);
      assert BASE_D.digits[value % 10] == '0' + (value % 10) as char;
    }
  }

  lemma {:induction false} ReverseDecimal(s: string)
    requires AllDecimal(s)
    ensures AllDecimal(Reverse(s))
  {
    forall i | 0 <= i < |s| ensures IsDecimal(Reverse(s)[i]) { ReverseAt(s, i); }
  }

  /** atoi undoes every signed decimal conversion without digit groups, whatever its other
      flags, its width and its precision, on every int. */
  lemma AtoiUndoesPrintf(v: int, c: Conversion)
    requires !c.grouped
    ensures Number(Field(Magnitude(v), true, v < 0, BASE_D, c)) == v
  {
    hide Eval, Number, Body, Field;
    var m := Magnitude(v);
    var front, sign, zeros, tail := Shape(m, v < 0, c);
    var body := Body(m, BASE_D, c);
    BodyDecimal(m, c);
    BodyValue(m, BASE_D, c);
    EvalZeros(BASE_D, |zeros|, body);
    assert zeros == seq(|zeros|, i => '0');
    NumberIs(front, sign, zeros + body, tail);
  }

  /** A signed decimal field: spaces, a sign, zeros, the body and spaces. */
  lemma Shape(m: nat, negative: bool, c: Conversion) returns (front: string, sign: string, zeros: string, tail: string)
    ensures Field(m, true, negative, BASE_D, c) == front + (sign + ((zeros + Body(m, BASE_D, c)) + tail))
    ensures AllSpace(front) && AllSpace(tail) && forall i :: 0 <= i < |zeros| ==> zeros[i] == '0'
    ensures sign == if negative then "-" else if c.plus then "+" else ""
  {
    hide Body, Fill;
    var s, body := Sign(true, negative, c), Body(m, BASE_D, c);
    assert Prefix(m, BASE_D, c) == "";
    var pad := c.width - |body| - |s|;
    zeros := if c.zero then Fill('0', pad) else "";
    tail := if c.minus then Fill(' ', pad) else "";
    var first := if c.minus || c.zero then "" else Fill(' ', pad);
    if s == " " { front, sign := first + s, ""; } else { front, sign := first, s; }
    Regroup(first, s, zeros, body, tail, front, sign);
  }

  lemma Regroup(first: string, s: string, zeros: string, body: string, tail: string, front: string, sign: string)
    requires (front == first + s && sign == "") || (front == first && sign == s)
    ensures first + s + "" + zeros + body + tail == front + (sign + ((zeros + body) + tail))
  {
    assert first + s + "" == first + s == front + sign by { assert front + "" == front; }
    Concat3(front + sign, zeros, body);
    Concat3(front + sign, zeros + body, tail);
    Concat3(front, sign, zeros + body + tail);
  }

  lemma BodyDecimal(value: nat, c: Conversion)
    requires !c.grouped
    ensures AllDecimal(Body(value, BASE_D, c))
  {
    hide Backwards, Reverse;
    var k := BodyIs(value, BASE_D, c);
    PlainDigits(value, 0);
    ReverseDecimal(Backwards(value, BASE_D, false, 0));
  }

  // ----- digit groups -----

  predicate AllNumeral(s: string) { forall i :: 0 <= i < |s| ==> IsDecimal(s[i]) || s[i] == ',' }

  lemma {:induction false} GroupedDigits(value: nat, done: nat)
    ensures AllNumeral(Backwards(value, BASE_D, true, done))
    decreases value
  {
    if value > 0 {
      GroupedDigits(value / 10, done + 1);
      assert BASE_D.digits[value % 10] == '0' + (value % 10) as char;
    }
  }

  /** Fewer than four digits are not grouped. */
  lemma GroupedSmall(value: nat)
    requires value < 1000
    ensures Backwards(value, BASE_D, true, 0) == Backwards(value, BASE_D, false, 0)
  {
    assert value / 10 / 10 / 10 == 0;
    forall done: nat ensures Backwards(0, BASE_D, true, done) == Backwards(0, BASE_D, false, done) {}
    var a, b := value / 10, value / 10 / 10;
    assert Backwards(b, BASE_D, true, 2) == Backwards(b, BASE_D, false, 2);
    assert Backwards(a, BASE_D, true, 1) == Backwards(a, BASE_D, false, 1);
  }

  /** From four digits on there is a comma, though not at the end. */
  lemma GroupedLarge(value: nat)
    requires value >= 1000
    ensures var s := Backwards(value, BASE_D, true, 0);
            |s| > 3 && s[3] == ',' && s[0] != ','
  {
    var a, b, c := value / 10, value / 10 / 10, value / 10 / 10 / 10;
    assert c > 0 && |Backwards(c, BASE_D, true, 3)| >= 1;
    assert |Backwards(b, BASE_D, true, 2)| >= 2;
    assert |Backwards(a, BASE_D, true, 1)| >= 3;
    CommaPlaces(value, BASE_D, 0, 3);
    CommaPlaces(value, BASE_D, 0, 0);
  }

  /** Read up to a comma that digits follow, a numeral stands for less than a tenth of it. */
  lemma ReadToComma(s: string, tail: string, j: nat)
    requires j < |s| && s[j] == ',' && s[|s| - 1] != ','
    ensures 10 * Unsigned(s + tail) <= Eval(BASE_D, s)
  {
    hide Eval;
    var u := s + tail;
    var r := DigitRun(u);
    assert u[j] == ',';
    assert r <= j;
    assert u[..r] == s[..r];
    EvalGrows(BASE_D, s, r);
  }

  lemma NumberOf(spaces: string, sign: string, u: string)
    requires AllSpace(spaces) && u != "" && (IsDecimal(u[0]) || u[0] == ',')
    requires sign == "" || sign == "+" || sign == "-"
    ensures Number(spaces + (sign + u)) == if sign == "-" then 0 - Unsigned(u) else Unsigned(u)
  {
    hide Unsigned, Number;
    var t := sign + u;
    if sign == "" { assert t == u; } else { assert t[0] == sign[0] && t[1..] == u; }
    AfterSpaces(spaces, t);
  }

  /** The body of a large grouped numeral has a comma, but not at its end. */
  lemma GroupedBody(m: nat, c: Conversion) returns (j: nat)
    requires c.grouped && m >= 1000
    ensures var body := Body(m, BASE_D, c);
            && AllNumeral(body) && j < |body| && body[j] == ',' && body[|body| - 1] != ','
  {
    hide Backwards, Reverse;
    var k := BodyIs(m, BASE_D, c);
    var s := Backwards(m, BASE_D, true, 0);
    GroupedDigits(m, 0);
    GroupedLarge(m);
    forall i | 0 <= i < |s| ensures Reverse(s)[i] == s[|s| - 1 - i] { ReverseAt(s, i); }
    j := k + |s| - 4;
    assert Reverse(s)[|s| - 4] == s[3] && Reverse(s)[|s| - 1] == s[0];
  }

  /** With digit groups atoi undoes the conversion exactly for numbers of at most three
      digits. */
  lemma AtoiUndoesGrouped(v: int, c: Conversion)
    requires c.grouped
    ensures Number(Field(Magnitude(v), true, v < 0, BASE_D, c)) == v <==> -1000 < v < 1000
  {
    hide Eval, Number, Body, Field, Unsigned;
    var m := Magnitude(v);
    if m < 1000 {
      UngroupedField(m, v < 0, c);
      AtoiUndoesPrintf(v, c.(grouped := false));
    } else {
      var front, sign, zeros, tail := Shape(m, v < 0, c);
      var body := Body(m, BASE_D, c);
      var j := GroupedBody(m, c);
      BodyValue(m, BASE_D, c);
      EvalZeros(BASE_D, |zeros|, body);
      var s := zeros + body;
      assert zeros == seq(|zeros|, i => '0');
      assert s[|zeros| + j] == ',' && s[|s| - 1] == body[|body| - 1];
      ReadToComma(s, tail, |zeros| + j);
      assert (s + tail)[0] == if zeros == "" then body[0] else '0';
      NumberOf(front, sign, s + tail);
    }
  }

  lemma UngroupedField(m: nat, negative: bool, c: Conversion)
    requires m < 1000 && c.grouped
    ensures Field(m, true, negative, BASE_D, c) == Field(m, true, negative, BASE_D, c.(grouped := false))
  {
    var c' := c.(grouped := false);
    hide Buffer, Reverse, Fill, Sign, Prefix, Body;
    BufferSame(m, c);
    PartsSame(m, negative, c);
  }

  lemma PartsSame(m: nat, negative: bool, c: Conversion)
    requires Buffer(m, BASE_D, c) == Buffer(m, BASE_D, c.(grouped := false))
    ensures var c' := c.(grouped := false);
            && Sign(true, negative, c) == Sign(true, negative, c') && Prefix(m, BASE_D, c) == Prefix(m, BASE_D, c')
            && Body(m, BASE_D, c) == Body(m, BASE_D, c')
  {
    hide Buffer, Reverse;
  }

  lemma BufferSame(m: nat, c: Conversion)
    requires m < 1000 && c.grouped
    ensures Buffer(m, BASE_D, c) == Buffer(m, BASE_D, c.(grouped := false))
  {
    GroupedSmall(m);
    hide Backwards, Fill;
  }
}
