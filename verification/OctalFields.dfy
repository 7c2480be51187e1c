/** The octal number fields of a ustar header: printed with "%0<n>o", parsed by
    parse_octal_field (lib/ustar.c). */
module OctalFields {
  import opened Options
  import opened Numerals
  import opened Printf

  const ULONG_MAX: nat := 0xffff_ffff

  predicate IsOctal(c: char) { '0' <= c <= '7' }

  predicate AllOctal(s: string) { forall i :: 0 <= i < |s| ==> IsOctal(s[i]) }

  /** "%0<width>o" of value. */
  function Octal(value: nat, width: nat): string
  {
    Field(value, false, false, BASE_O, Conversion(false, false, false, false, true, false, width, -1))
  }

  lemma {:induction false} PlainOctal(value: nat, done: nat, k: nat)
    requires value < Pow8(k)
    ensures AllOctal(Backwards(value, BASE_O, false, done)) && |Backwards(value, BASE_O, false, done)| <= k
    decreases value
  {
    if value > 0 {
      PlainOctal(value / 8, done + 1, k - 1);
      assert BASE_O.digits[value % 8] == '0' + (value % 8) as char;
    }
  }

  /** A value of at most width digits fills the field exactly, with octal digits that read
      back as the value. */
  lemma OctalIs(value: nat, width: nat)
    requires 0 < width && value < Pow8(width)
    ensures var s := Octal(value, width);
            |s| == width && AllOctal(s) && Eval(BASE_O, s) == value
  {
    hide Backwards, Eval, Body;
    var c := Conversion(false, false, false, false, true, false, width, -1);
    var body := Body(value, BASE_O, c);
    BodyOctal(value, c, width);
    BodyValue(value, BASE_O, c);
    var zeros := Fill('0', width - |body|);
    assert Octal(value, width) == zeros + body;
    assert zeros == seq(|zeros|, i => '0');
    EvalZeros(BASE_O, |zeros|, body);
  }

  lemma BodyOctal(value: nat, c: Conversion, width: nat)
    requires !c.grouped && !c.pound && c.precision < 0 && 0 < width && value < Pow8(width)
    ensures AllOctal(Body(value, BASE_O, c)) && |Body(value, BASE_O, c)| <= width
  {
    hide Backwards, Reverse;
    PlainOctal(value, 0, width);
    var s := Buffer(value, BASE_O, c);
    forall i | 0 <= i < |s| ensures IsOctal(Reverse(s)[i]) { ReverseAt(s, i); }
  }

  function OctalRun(s: string): (n: nat)
    ensures n <= |s| && (forall i :: 0 <= i < n ==> IsOctal(s[i])) && (n < |s| ==> !IsOctal(s[n]))
  {
    if s == "" || !IsOctal(s[0]) then 0 else 1 + OctalRun(s[1..])
  }

  /** What a field means: octal digits, at least one, ended by a space or a null byte within
      the field, and standing for no more than 32 bits hold. */
  function FieldValue(s: string): Option<nat>
  {
    var n := OctalRun(s);
    if 0 < n < |s| && (s[n] == ' ' || s[n] == '\0') && Eval(BASE_O, s[..n]) <= ULONG_MAX
    then Some(Eval(BASE_O, s[..n]))
    else None
  }

  lemma OctalRunIs(s: string, k: nat)
    requires k <= |s| && (forall i :: 0 <= i < k ==> IsOctal(s[i])) && (k < |s| ==> !IsOctal(s[k]))
    ensures OctalRun(s) == k
  {
  }

  /** parse_octal_field: its overflow test refuses exactly the values above 32 bits. */
  method ParseOctalField(s: string) returns (value: Option<nat>)
    ensures value == FieldValue(s)
  {
    hide Eval;
    var v: nat := 0;
    var ofs := 0;
    assert s[..0] == "";
    EvalNone(BASE_O);
    while ofs < |s|
      invariant ofs <= |s| && (forall i :: 0 <= i < ofs ==> IsOctal(s[i]))
      invariant v == Eval(BASE_O, s[..ofs]) && v <= ULONG_MAX
    {
      var c := s[ofs];
      if '0' <= c <= '7' {
        EvalPush(BASE_O, s[..ofs], c);
        assert s[..ofs + 1] == s[..ofs] + [c];
        if v > ULONG_MAX / 8 {
          Overflow(s, ofs + 1);
          return None;
        }
        v := c as nat - '0' as nat + v * 8;
      } else {
        OctalRunIs(s, ofs);
        return if (c == ' ' || c == '\0') && ofs > 0 then Some(v) else None;
      }
      ofs := ofs + 1;
    }
    OctalRunIs(s, |s|);
    value := None;
  }

  lemma Overflow(s: string, n: nat)
    requires n <= |s| && (forall i :: 0 <= i < n ==> IsOctal(s[i])) && Eval(BASE_O, s[..n]) > ULONG_MAX
    ensures FieldValue(s) == None
  {
    hide Eval;
    var r := OctalRun(s);
    assert n <= r;
    assert s[..r][..n] == s[..n];
    EvalGrows(BASE_O, s[..r], n);
  }

  /** Just which fields have a value: one octal digit or more, and then a space or a null byte in
      the field, where the digits stand for at most 2^32 - 1. */
  lemma FieldMeans(s: string, v: nat)
    ensures FieldValue(s) == Some(v) <==>
            exists n :: 0 < n < |s| && (forall i :: 0 <= i < n ==> s[i] in "01234567") &&
                        (s[n] == ' ' || s[n] == '\0') && Eval(BASE_O, s[..n]) == v && v < 0x1_0000_0000
  {
    hide Eval;
    var k := OctalRun(s);
    assert forall c :: IsOctal(c) <==> c in "01234567";
    forall n | 0 < n < |s| && (forall i :: 0 <= i < n ==> s[i] in "01234567") && (s[n] == ' ' || s[n] == '\0') ensures n == k {
      OctalRunIs(s, n);
    }
  }

  /** A printed field with its null byte parses back. */
  lemma FieldRoundTrip(value: nat, width: nat)
    requires 0 < width && value < Pow8(width) && value <= ULONG_MAX
    ensures FieldValue(Octal(value, width) + "\0") == Some(value)
  {
    hide Eval, Octal;
    OctalIs(value, width);
    var s := Octal(value, width);
    var t := s + "\0";
    assert t[..width] == s && t[width] == '\0';
    OctalRunIs(t, width);
  }
}
