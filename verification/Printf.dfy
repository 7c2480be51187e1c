/** Integer conversions of printf and their output into a bounded buffer (lib/stdio.c). */
module Printf {
  import opened Numerals

  /** A printf_conversion: its flags, field width and precision (negative if none). */
  datatype Conversion = Conversion(minus: bool, plus: bool, space: bool, pound: bool, zero: bool,
                                   grouped: bool, width: int, precision: int)

  function Fill(ch: char, n: int): (r: string)
    ensures |r| == if n > 0 then n else 0
    ensures forall i :: 0 <= i < |r| ==> r[i] == ch
  {
    seq(if n > 0 then n else 0, i => ch)
  }

  function Sign(isSigned: bool, negative: bool, c: Conversion): string
  {
    if !isSigned then ""
    else if negative then "-"
    else if c.plus then "+"
    else if c.space then " "
    else ""
  }

  function Prefix(value: nat, b: Base, c: Conversion): string
  {
    if c.pound && value > 0 && b.x != "" then "0" + b.x else ""
  }

  /** The digit buffer, last digit first: digits, zeros up to the precision or 63 characters,
      and the zero that # asks for in octal. */
  function Padded(value: nat, b: Base, c: Conversion): string
    requires Known(b)
  {
    var digits := Backwards(value, b, c.grouped, 0);
    var precision := if c.precision < 0 then 1 else c.precision;
    digits + Fill('0', (if precision < 63 then precision else 63) - |digits|)
  }

  function Buffer(value: nat, b: Base, c: Conversion): string
    requires Known(b)
  {
    var s := Padded(value, b, c);
    if c.pound && b.base == 8 && (s == "" || s[|s| - 1] != '0') then s + "0" else s
  }

  function Body(value: nat, b: Base, c: Conversion): string
    requires Known(b)
  {
    Reverse(Buffer(value, b, c))
  }

  /** The field format_integer outputs. */
  function Field(value: nat, isSigned: bool, negative: bool, b: Base, c: Conversion): string
    requires Known(b)
  {
    var sign, prefix, body := Sign(isSigned, negative, c), Prefix(value, b, c), Body(value, b, c);
    var pad := c.width - |body| - |prefix| - |sign|;
    (if c.minus || c.zero then "" else Fill(' ', pad))
    + sign + prefix + (if c.zero then Fill('0', pad) else "")
    + body + (if c.minus then Fill(' ', pad) else "")
  }

  /** The characters of a field that are not padding. */
  function ContentLength(value: nat, isSigned: bool, negative: bool, b: Base, c: Conversion): nat
    requires Known(b)
  {
    |Sign(isSigned, negative, c)| + |Prefix(value, b, c)| + |Body(value, b, c)|
  }

  /** A field is as wide as asked, or as its content, exactly when it is not padded on both
      sides: with both the '-' and the '0' flag the padding comes twice. */
  lemma FieldWidth(value: nat, isSigned: bool, negative: bool, b: Base, c: Conversion)
    requires Known(b)
    ensures var content := ContentLength(value, isSigned, negative, b, c);
            var width := if c.width > content then c.width else content;
            && |Field(value, isSigned, negative, b, c)| ==
               (if c.minus && c.zero then 2 * width - content else width)
            && (|Field(value, isSigned, negative, b, c)| == width <==>
                !(c.minus && c.zero) || c.width <= content)
  {
    hide Sign, Prefix, Body, Fill, Known;
  }

  lemma Below64(value: nat)
    requires value < 0x1_0000_0000_0000_0000
    ensures value < Pow8(22)
  {
    assert Pow8(4) == 0x1000;
    assert Pow8(8) == 0x100_0000 by { assert Pow8(8) == 0x1000 * Pow8(4) by { assert Pow8(6) == 64 * Pow8(4); } }
    assert Pow8(12) == 0x1000 * Pow8(8) by { assert Pow8(10) == 64 * Pow8(8); }
    assert Pow8(16) == 0x1000 * Pow8(12) by { assert Pow8(14) == 64 * Pow8(12); }
    assert Pow8(20) == 0x1000 * Pow8(16) by { assert Pow8(18) == 64 * Pow8(16); }
    assert Pow8(22) == 64 * Pow8(20);
  }

  /** No 64-bit value overruns the 64-byte buffer, whatever the flags and the precision. */
  lemma BufferFits(value: nat, b: Base, c: Conversion)
    requires Known(b) && value < 0x1_0000_0000_0000_0000
    ensures |Backwards(value, b, c.grouped, 0)| <= 44
    ensures |Padded(value, b, c)| <= 63 && |Buffer(value, b, c)| <= 64
  {
    Below64(value);
    BackwardsFits(value, b, c.grouped, 0, 22);
  }

  lemma {:induction false} ReverseConcat(s: string, t: string)
    ensures Reverse(s + t) == Reverse(t) + Reverse(s)
    decreases |s|
  {
    if s == "" {
      assert s + t == t;
    } else {
      ReverseConcat(s[1..], t);
      assert (s + t)[1..] == s[1..] + t;
    }
  }

  lemma {:induction false} ReverseFill(ch: char, n: nat)
    ensures Reverse(Fill(ch, n)) == Fill(ch, n)
  {
    if n > 0 {
      ReverseFill(ch, n - 1);
      assert Fill(ch, n)[1..] == Fill(ch, n - 1);
      assert Fill(ch, n) == Fill(ch, n - 1) + [ch];
    }
  }

  /** The body is the digits of the value, perhaps after zeros. */
  lemma BodyIs(value: nat, b: Base, c: Conversion) returns (k: nat)
    requires Known(b)
    ensures Body(value, b, c) == Fill('0', k) + Reverse(Backwards(value, b, c.grouped, 0))
    ensures k == |Buffer(value, b, c)| - |Backwards(value, b, c.grouped, 0)|
  {
    hide Backwards, Reverse;
    var digits := Backwards(value, b, c.grouped, 0);
    var s := Buffer(value, b, c);
    k := |s| - |digits|;
    assert s == digits + Fill('0', k);
    ReverseConcat(digits, Fill('0', k));
    ReverseFill('0', k);
  }

  /** The body has the digits of the value and the zeros of the buffer. */
  lemma BodyCount(value: nat, b: Base, c: Conversion)
    requires Known(b)
    ensures DigitCount(Body(value, b, c)) + |Backwards(value, b, c.grouped, 0)| ==
            NumDigits(value, b) + |Buffer(value, b, c)|
  {
    hide Backwards, Reverse, Buffer;
    var digits := Backwards(value, b, c.grouped, 0);
    var k := BodyIs(value, b, c);
    CountConcat(Fill('0', k), Reverse(digits));
    CountZeros(Fill('0', k));
    CountReverse(digits);
    GroupedDigitCount(value, b, c.grouped, 0);
  }

  lemma BufferLength(value: nat, b: Base, c: Conversion)
    requires Known(b) && value < 0x1_0000_0000_0000_0000
    ensures var t := |Backwards(value, b, c.grouped, 0)|;
            var precision := if c.precision < 0 then 1 else if c.precision < 63 then c.precision else 63;
            && t <= 44
            && |Buffer(value, b, c)| ==
               if precision > t then precision
               else t + (if c.pound && b.base == 8 then 1 else 0)
  {
    BufferFits(value, b, c);
    if value > 0 { TopDigit(value, b, c.grouped, 0); }
  }

  /** The precision is a least number of digits.  Where the digits form one group or none it is
      met exactly up to 63; where there are commas the code counts them as digits, and it is
      met exactly up to the digits of the value itself, and one more for '#' in octal. */
  lemma PrecisionMet(value: nat, b: Base, c: Conversion)
    requires Known(b) && value < 0x1_0000_0000_0000_0000
    ensures var d := NumDigits(value, b);
            DigitCount(Body(value, b, c)) >= c.precision <==>
            if !c.grouped || d <= b.group then c.precision <= 63
            else c.precision <= d + (if c.pound && b.base == 8 then 1 else 0)
  {
    hide Backwards, Buffer, Body, Known;
    BodyCount(value, b, c);
    BufferLength(value, b, c);
    if c.grouped { CommaCount(value, b); }
  }

  /** Just how many characters the digits take: a comma before every further group, at least the
      precision up to 63, and otherwise one more for '#' in octal. */
  lemma BodyLength(value: nat, b: Base, c: Conversion)
    requires Known(b) && value < 0x1_0000_0000_0000_0000
    ensures var d := NumDigits(value, b);
            var t := d + (if c.grouped && d > 0 then (d - 1) / b.group else 0);
            var precision := if c.precision < 0 then 1 else if c.precision < 63 then c.precision else 63;
            && |Body(value, b, c)| == (if precision > t then precision else t + (if c.pound && b.base == 8 then 1 else 0))
            && DigitCount(Body(value, b, c)) == |Body(value, b, c)| - (t - d)
  {
    hide Backwards, Buffer, Known;
    BodyCount(value, b, c);
    BufferLength(value, b, c);
    GroupedLength(value, b, 0);
  }

  lemma CommaCount(value: nat, b: Base)
    requires Known(b)
    ensures |Backwards(value, b, true, 0)| >= NumDigits(value, b)
    ensures |Backwards(value, b, true, 0)| == NumDigits(value, b) <==> NumDigits(value, b) <= b.group
  {
    CommasFrom(value, b, 0);
  }

  /** "%'.9d" of 1234567 has nine characters, two of them commas. */
  lemma PrecisionExample()
    ensures var c := Conversion(false, false, false, false, false, true, 0, 9);
            |Body(1234567, BASE_D, c)| == 9 && DigitCount(Body(1234567, BASE_D, c)) == 7
  {
    hide Backwards, Buffer;
    var c := Conversion(false, false, false, false, false, true, 0, 9);
    SevenDigits(1234567);
    BodyCount(1234567, BASE_D, c);
    BufferLength(1234567, BASE_D, c);
  }

  /** Seven decimal digits take two commas. */
  lemma SevenDigits(v: nat)
    requires 1000000 <= v < 10000000
    ensures NumDigits(v, BASE_D) == 7 && |Backwards(v, BASE_D, true, 0)| == 9
  {
    hide Backwards, NumDigits;
    NoDigits(7);
    OneDigit(v / 1000000, 6);
    OneDigit(v / 100000, 5);
    OneDigit(v / 10000, 4);
    OneDigit(v / 1000, 3);
    OneDigit(v / 100, 2);
    OneDigit(v / 10, 1);
    OneDigit(v, 0);
    assert v / 10 / 10 == v / 100 && v / 100 / 10 == v / 1000 && v / 1000 / 10 == v / 10000;
    assert v / 10000 / 10 == v / 100000 && v / 100000 / 10 == v / 1000000 && v / 1000000 / 10 == 0;
  }

  lemma OneDigit(v: nat, done: nat)
    requires v > 0
    ensures NumDigits(v, BASE_D) == 1 + NumDigits(v / 10, BASE_D)
    ensures |Backwards(v, BASE_D, true, done)| ==
            (if done > 0 && done % 3 == 0 then 2 else 1) + |Backwards(v / 10, BASE_D, true, done + 1)|
  {
    NumDigitsStep(v, BASE_D);
    var _ := StepCount(v, BASE_D, true, done);
  }

  lemma NoDigits(done: nat)
    ensures NumDigits(0, BASE_D) == 0 && |Backwards(0, BASE_D, true, done)| == 0
  {
  }

  /** The digits of every conversion evaluate back to the value. */
  lemma BodyValue(value: nat, b: Base, c: Conversion)
    requires Known(b)
    ensures Eval(b, Body(value, b, c)) == value
  {
    hide Backwards, Reverse, Eval;
    var k := BodyIs(value, b, c);
    EvalDigits(value, b, c.grouped, 0);
    EvalZeros(b, k, Reverse(Backwards(value, b, c.grouped, 0)));
    assert Fill('0', k) == seq(k, i => '0');
  }

  /** vsnprintf_aux: the output so far, of which the buffer keeps what fits. */
  class Sink {
    const buffer: array<char>
    const maxLength: nat
    var length: nat
    ghost var text: string

    ghost predicate Valid()
      reads this, buffer
    {
      && length == |text| && maxLength <= buffer.Length
      && buffer[..Stored()] == text[..Stored()]
    }

    /** Where the next character would go: aux.p. */
    function Stored(): (n: nat)
      reads this
      ensures n <= length && n <= maxLength
    {
      if length < maxLength then length else maxLength
    }

    /** The set-up of vsnprintf. */
    constructor (buffer: array<char>, bufSize: nat)
      requires bufSize <= buffer.Length
      ensures Valid() && text == "" && this.buffer == buffer
      ensures maxLength == if bufSize > 0 then bufSize - 1 else 0
    {
      this.buffer := buffer;
      maxLength := if bufSize > 0 then bufSize - 1 else 0;
      length, text := 0, "";
    }

    /** vsnprintf_helper. */
    method Output(ch: char)
      requires Valid()
      modifies this`length, this`text, buffer
      ensures Valid() && text == old(text) + [ch]
      ensures forall i :: maxLength <= i < buffer.Length ==> buffer[i] == old(buffer[i])
    {
      if length < maxLength { buffer[length] := ch; }
      length, text := length + 1, text + [ch];
    }

    method OutputDup(ch: char, cnt: int)
      requires Valid()
      modifies this`length, this`text, buffer
      ensures Valid() && text == old(text) + Fill(ch, cnt)
      ensures forall i :: maxLength <= i < buffer.Length ==> buffer[i] == old(buffer[i])
    {
      var n := 0;
      while n < cnt
        invariant 0 <= n && (n <= cnt || n == 0) && Valid() && text == old(text) + Fill(ch, n)
        invariant forall i :: maxLength <= i < buffer.Length ==> buffer[i] == old(buffer[i])
      {
        Output(ch);
        n := n + 1;
        assert Fill(ch, n) == Fill(ch, n - 1) + [ch];
      }
    }

    method OutputIf(when: bool, ch: char, cnt: int)
      requires Valid()
      modifies this`length, this`text, buffer
      ensures Valid() && text == old(text) + if when then Fill(ch, cnt) else ""
      ensures forall i :: maxLength <= i < buffer.Length ==> buffer[i] == old(buffer[i])
    {
      if when { OutputDup(ch, cnt); }
    }

    method OutputString(s: string)
      requires Valid()
      modifies this`length, this`text, buffer
      ensures Valid() && text == old(text) + s
      ensures forall i :: maxLength <= i < buffer.Length ==> buffer[i] == old(buffer[i])
    {
      for n := 0 to |s|
        invariant Valid() && text == old(text) + s[..n]
        invariant forall i :: maxLength <= i < buffer.Length ==> buffer[i] == old(buffer[i])
      {
        Output(s[n]);
      }
    }
  }

  /** The digit loop of format_integer. */
  method FillDigits(value: nat, b: Base, grouped: bool, buf: array<char>) returns (cp: nat)
    requires Known(b) && |Backwards(value, b, grouped, 0)| <= buf.Length
    modifies buf
    ensures cp <= buf.Length && buf[..cp] == Backwards(value, b, grouped, 0)
  {
    ghost var digits := Backwards(value, b, grouped, 0);
    hide Known, Backwards;
    cp := 0;
    var v: nat, digitCnt: nat := value, 0;
    assert buf[..cp] == [];
    while v > 0
      invariant cp <= buf.Length && buf[..cp] + Backwards(v, b, grouped, digitCnt) == digits
      decreases v
    {
      var comma, d := NextDigit(v, b, grouped, digitCnt);
      ghost var was, next := buf[..cp], Backwards(v / b.base, b, grouped, digitCnt + 1);
      DigitPut(was, comma, d, next);
      if comma { cp := Put(buf, cp, ','); }
      cp := Put(buf, cp, d);
      v, digitCnt := v / b.base, digitCnt + 1;
    }
    NotEmpty(0, b, grouped, digitCnt);
  }

  /** *cp++ = ch */
  method Put(buf: array<char>, cp: nat, ch: char) returns (next: nat)
    requires cp < buf.Length
    modifies buf
    ensures next == cp + 1 && buf[..next] == old(buf[..cp]) + [ch]
    ensures forall i :: cp < i < buf.Length ==> buf[i] == old(buf[i])
  {
    ghost var was := buf[..cp];
    buf[cp], next := ch, cp + 1;
    assert buf[..next] == was + [ch];
  }

  lemma DigitPut(was: string, comma: bool, d: char, next: string)
    ensures was + ((if comma then [',', d] else [d]) + next) ==
            (if comma then was + [','] else was) + [d] + next
    ensures |was + ((if comma then [',', d] else [d]) + next)| > |was| + (if comma then 1 else 0)
  {
  }

  /** The character for the last digit of v, and whether a comma goes before it. */
  method NextDigit(v: nat, b: Base, grouped: bool, done: nat) returns (comma: bool, d: char)
    requires Known(b) && v > 0
    ensures b.base > 1 && v / b.base < v
    ensures Backwards(v, b, grouped, done) ==
            (if comma then [',', d] else [d]) + Backwards(v / b.base, b, grouped, done + 1)
  {
    comma := grouped && done > 0 && done % b.group == 0;
    d := b.digits[v % b.base];
  }

  /** The zeros of format_integer after the digits, in a buffer of 64 characters. */
  method Digits(value: nat, b: Base, c: Conversion) returns (buf: array<char>, cp: nat)
    requires Known(b) && value < 0x1_0000_0000_0000_0000
    ensures fresh(buf) && cp <= buf.Length == 64 && buf[..cp] == Buffer(value, b, c)
  {
    BufferFits(value, b, c);
    ghost var digits := Backwards(value, b, c.grouped, 0);
    hide Known, Backwards;
    buf := new char[64];
    cp := FillDigits(value, b, c.grouped, buf);
    var precision := if c.precision < 0 then 1 else c.precision;
    while cp < precision && cp < 63
      invariant |digits| <= cp <= 63
      invariant buf[..cp] == digits + Fill('0', cp - |digits|)
      invariant cp <= precision || cp == |digits|
    {
      cp := Put(buf, cp, '0');
      FillNext(digits, cp - 1 - |digits|);
    }
    assert buf[..cp] == Padded(value, b, c);
    if c.pound && b.base == 8 && (cp == 0 || buf[cp - 1] != '0') {
      cp := Put(buf, cp, '0');
    }
  }

  lemma FillNext(s: string, n: nat)
    ensures s + Fill('0', n) + ['0'] == s + Fill('0', n + 1)
  {
    assert Fill('0', n + 1) == Fill('0', n) + ['0'];
  }

  /** The output loop: the buffer from its end. */
  method OutputBackwards(buf: array<char>, n: nat, sink: Sink)
    requires n <= buf.Length && sink.Valid() && buf != sink.buffer
    modifies sink`length, sink`text, sink.buffer
    ensures sink.Valid() && sink.text == old(sink.text) + Reverse(buf[..n])
    ensures forall i :: sink.maxLength <= i < sink.buffer.Length ==> sink.buffer[i] == old(sink.buffer[i])
  {
    ghost var before := sink.text;
    var cp := n;
    while cp > 0
      invariant 0 <= cp <= n && sink.Valid()
      invariant sink.text + Reverse(buf[..cp]) == before + Reverse(buf[..n])
      invariant forall i :: sink.maxLength <= i < sink.buffer.Length ==> sink.buffer[i] == old(sink.buffer[i])
    {
      cp := cp - 1;
      ReverseAppend(buf[..cp], buf[cp]);
      assert buf[..cp + 1] == buf[..cp] + [buf[cp]];
      ghost var was := sink.text;
      sink.Output(buf[cp]);
      assert was + ([buf[cp]] + Reverse(buf[..cp])) == was + [buf[cp]] + Reverse(buf[..cp]);
    }
    assert Reverse(buf[..0]) == "";
  }

  /** format_integer outputs its field, once and in order. */
  method FormatInteger(value: nat, isSigned: bool, negative: bool, b: Base, c: Conversion, sink: Sink)
    requires Known(b) && value < 0x1_0000_0000_0000_0000 && sink.Valid()
    modifies sink`length, sink`text, sink.buffer
    ensures sink.Valid() && sink.text == old(sink.text) + Field(value, isSigned, negative, b, c)
    ensures forall i :: sink.maxLength <= i < sink.buffer.Length ==> sink.buffer[i] == old(sink.buffer[i])
  {
    hide Known, Buffer, Reverse, Sign, Prefix, Fill, Field;
    ghost var start := sink.text;
    var sign, prefix := Sign(isSigned, negative, c), Prefix(value, b, c);
    var buf, cp := Digits(value, b, c);
    var pad := c.width - cp - |prefix| - |sign|;
    sink.OutputIf(!c.minus && !c.zero, ' ', pad);
    sink.OutputString(sign);
    sink.OutputString(prefix);
    sink.OutputIf(c.zero, '0', pad);
    OutputBackwards(buf, cp, sink);
    sink.OutputIf(c.minus, ' ', pad);
    FieldIs(start, value, isSigned, negative, b, c);
  }

  lemma FieldIs(start: string, value: nat, isSigned: bool, negative: bool, b: Base, c: Conversion)
    requires Known(b)
    ensures var sign, prefix, body := Sign(isSigned, negative, c), Prefix(value, b, c), Body(value, b, c);
            var pad := c.width - |body| - |prefix| - |sign|;
            start + (if !c.minus && !c.zero then Fill(' ', pad) else "") + sign + prefix
            + (if c.zero then Fill('0', pad) else "") + body + (if c.minus then Fill(' ', pad) else "")
            == start + Field(value, isSigned, negative, b, c)
  {
    hide Sign, Prefix, Body, Fill, Known;
    var sign, prefix, body := Sign(isSigned, negative, c), Prefix(value, b, c), Body(value, b, c);
    var pad := c.width - |body| - |prefix| - |sign|;
    Concat6(start, if !c.minus && !c.zero then Fill(' ', pad) else "", sign, prefix,
            if c.zero then Fill('0', pad) else "", body, if c.minus then Fill(' ', pad) else "");
  }

  lemma Concat6(s: string, a: string, b: string, c: string, d: string, e: string, f: string)
    ensures s + a + b + c + d + e + f == s + (a + b + c + d + e + f)
  {
    Concat3(s, a, b);
    Concat3(s, a + b, c);
    Concat3(s, a + b + c, d);
    Concat3(s, a + b + c + d, e);
    Concat3(s, a + b + c + d + e, f);
  }

  lemma Concat3(a: string, b: string, c: string)
    ensures a + b + c == a + (b + c)
  {
  }
}
