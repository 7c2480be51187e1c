/** Format strings: __vprintf and vsnprintf (lib/stdio.c).  A format is printed with arguments
    whose kinds it asks for; it may not end inside a conversion, where the source would read on
    past its null byte. */
module Vprintf {
  import opened Options
  import opened Integers
  import opened Numerals
  import opened Printf
  import opened Conversions
  import opened Atoi

  datatype Arg = Int(value: int) | Text(text: string) | Null

  /** One conversion or literal character, ready to be output. */
  datatype Directive =
    | Literal(ch: char)
    | Integer(value: nat, isSigned: bool, negative: bool, b: Base, c: Conversion)
    | Textual(text: string, c: Conversion)

  predicate Supported(d: Directive)
  {
    d.Integer? ==> Known(d.b) && d.value < 0x1_0000_0000_0000_0000
  }

  function Piece(d: Directive): string
    requires Supported(d)
  {
    match d
    case Literal(ch) => [ch]
    case Integer(value, isSigned, negative, b, c) => Field(value, isSigned, negative, b, c)
    case Textual(text, c) =>
      (if c.minus then "" else Fill(' ', c.width - |text|)) + text
      + (if c.minus then Fill(' ', c.width - |text|) else "")
  }

  // ----- arguments -----

  /** 2 to the number of bits of a type. */
  function Modulus(t: IntType): (r: nat)
    ensures r > 0
  {
    match t
    case CHAR => 0x100
    case SHORT => 0x1_0000
    case INTMAX => 0x1_0000_0000_0000_0000
    case LONGLONG => 0x1_0000_0000_0000_0000
    case _ => 0x1_0000_0000
  }

  function UnsignedOf(t: IntType, v: int): (r: nat)
    ensures r < Modulus(t) <= 0x1_0000_0000_0000_0000
  {
    v % Modulus(t)
  }

  function SignedOf(t: IntType, v: int): (r: int)
    ensures -(Modulus(t) / 2) <= r < Modulus(t) / 2
  {
    var u := UnsignedOf(t, v);
    if u < Modulus(t) / 2 then u else u - Modulus(t)
  }

  /** A value of the type is converted to itself. */
  lemma SignedFits(t: IntType, v: int)
    requires -(Modulus(t) / 2) <= v < Modulus(t) / 2
    ensures SignedOf(t, v) == v
  {
    var m := Modulus(t);
    if v < 0 { assert (v + m) % m == v + m && v % m == (v + m) % m; }
  }

  const PLAIN := Conversion(false, false, false, false, false, false, 0, -1)

  /** The directive for a conversion character, and whether it takes an argument. */
  function Converted(ch: char, t: IntType, c: Conversion, args: seq<Arg>): (r: Option<(Directive, nat)>)
    ensures r.Some? ==> Supported(r.value.0) && r.value.1 <= |args|
  {
    if ch in "feEgGn" then Some((Textual("<<no %" + [ch] + " in kernel>>", PLAIN), 0))
    else if ch !in "dioxXucsp" then Some((Textual("<<no %" + [ch] + " conversion>>", PLAIN), 0))
    else if args == [] then None
    else if ch == 's' then
      if args[0].Int? then None
      else
        var text := if args[0].Null? then "(null)" else args[0].text;
        Some((Textual(if 0 <= c.precision < |text| then text[..c.precision] else text, c), 1))
    else if !args[0].Int? then None
    else
      var v := args[0].value;
      if ch == 'd' || ch == 'i' then
        var s := SignedOf(t, v);
        Some((Integer(Magnitude(s), true, s < 0, BASE_D, c), 1))
      else if ch == 'c' then Some((Textual([(v % 0x100) as char], c), 1))
      else if ch == 'p' then
        Some((Integer(v % 0x1_0000_0000, false, false, BASE_X,
                      PLAIN.(pound := true, width := c.width, precision := c.precision)), 1))
      else
        var b := if ch == 'o' then BASE_O else if ch == 'u' then BASE_D else if ch == 'x' then BASE_X else BASE_XX;
        Some((Integer(UnsignedOf(t, v), false, false, b, c), 1))
  }

  /** The first n arguments as numbers. */
  function Numbers(args: seq<Arg>, n: nat): Option<seq<int>>
  {
    if n == 0 then Some([])
    else if args == [] || !args[0].Int? then None
    else
      var rest := Numbers(args[1..], n - 1);
      if rest.None? then None else Some([args[0].value] + rest.value)
  }

  lemma {:induction false} NumbersCount(args: seq<Arg>, n: nat)
    ensures Numbers(args, n).Some? ==> |Numbers(args, n).value| == n <= |args|
  {
    if n > 0 && args != [] { NumbersCount(args[1..], n - 1); }
  }

  /** The first directive of a format, the characters and the arguments it takes. */
  function First(format: string, args: seq<Arg>): (r: Option<(Directive, nat, nat)>)
    requires format != ""
    ensures r.Some? ==> Supported(r.value.0) && 0 < r.value.1 <= |format| && r.value.2 <= |args|
  {
    if format[0] != '%' then Some((Literal(format[0]), 1, 0))
    else if |format| > 1 && format[1] == '%' then Some((Literal('%'), 2, 0))
    else
      hide Read, WriteSpec, Parsed, Converted, Numbers, SizeOf;
      var s := format[1..];
      var sp := Read(s);
      ReadParts(s);
      var n := |WriteSpec(sp)|;
      var stars := Numbers(args, Stars(sp));
      NumbersCount(args, Stars(sp));
      if n == |s| || stars.None? then None
      else
        var d := Converted(s[n], SizeOf(sp.size), Parsed(sp, stars.value), args[Stars(sp)..]);
        if d.None? then None else Some((d.value.0, n + 2, Stars(sp) + d.value.1))
  }

  /** What a format prints, where its arguments are of the kinds it asks for. */
  function Printed(format: string, args: seq<Arg>): Option<string>
    decreases |format|
  {
    if format == "" then Some("")
    else
      var f := First(format, args);
      if f.None? then None
      else
        var rest := Printed(format[f.value.1..], args[f.value.2..]);
        if rest.None? then None else Some(Piece(f.value.0) + rest.value)
  }

  method FormatString(text: string, c: Conversion, sink: Sink)
    requires sink.Valid()
    modifies sink`length, sink`text, sink.buffer
    ensures sink.Valid() && sink.text == old(sink.text) + Piece(Textual(text, c))
    ensures forall i :: sink.maxLength <= i < sink.buffer.Length ==> sink.buffer[i] == old(sink.buffer[i])
  {
    hide Fill;
    ghost var start := sink.text;
    ghost var before := if c.minus then "" else Fill(' ', c.width - |text|);
    ghost var after := if c.minus then Fill(' ', c.width - |text|) else "";
    Concat3(start, before, text);
    Concat3(start, before + text, after);
    sink.OutputIf(!c.minus, ' ', c.width - |text|);
    sink.OutputString(text);
    sink.OutputIf(c.minus, ' ', c.width - |text|);
  }

  method Emit(d: Directive, sink: Sink)
    requires Supported(d) && sink.Valid()
    modifies sink`length, sink`text, sink.buffer
    ensures sink.Valid() && sink.text == old(sink.text) + Piece(d)
    ensures forall i :: sink.maxLength <= i < sink.buffer.Length ==> sink.buffer[i] == old(sink.buffer[i])
  {
    hide Field;
    match d
    case Literal(ch) => sink.Output(ch);
    case Integer(value, isSigned, negative, b, c) => FormatInteger(value, isSigned, negative, b, c, sink);
    case Textual(text, c) => FormatString(text, c, sink);
  }

  /** __vprintf. */
  method VPrintf(format: string, args: seq<Arg>, sink: Sink)
    requires Printed(format, args).Some? && sink.Valid()
    modifies sink`length, sink`text, sink.buffer
    ensures sink.Valid() && sink.text == old(sink.text) + Printed(format, args).value
    ensures forall i :: sink.maxLength <= i < sink.buffer.Length ==> sink.buffer[i] == old(sink.buffer[i])
  {
    hide First, Piece;
    var p: nat, a: nat := 0, 0;
    ghost var whole := old(sink.text) + Printed(format, args).value;
    assert format[0..] == format && args[0..] == args;
    while p < |format|
      invariant p <= |format| && a <= |args| && sink.Valid()
      invariant Printed(format[p..], args[a..]).Some?
      invariant sink.text + Printed(format[p..], args[a..]).value == whole
      invariant forall i :: sink.maxLength <= i < sink.buffer.Length ==> sink.buffer[i] == old(sink.buffer[i])
      decreases |format| - p
    {
      var d, n, used := NextDirective(format[p..], args[a..]);
      assert format[p..][n..] == format[p + n..] && args[a..][used..] == args[a + used..];
      Concat3(sink.text, Piece(d), Printed(format[p + n..], args[a + used..]).value);
      Emit(d, sink);
      p, a := p + n, a + used;
    }
    assert format[p..] == "";
  }

  /** Parsing the next directive, as the loop of __vprintf does. */
  method NextDirective(format: string, args: seq<Arg>) returns (d: Directive, n: nat, used: nat)
    requires format != "" && First(format, args).Some?
    ensures First(format, args) == Some((d, n, used)) && 0 < n <= |format| && used <= |args| && Supported(d)
  {
    hide Converted, Read, WriteSpec, Parsed, Numbers, Stars, SizeOf;
    if format[0] != '%' { return Literal(format[0]), 1, 0; }
    if |format| > 1 && format[1] == '%' { return Literal('%'), 2, 0; }
    var s := format[1..];
    NumbersCount(args, Stars(Read(s)));
    var stars := Numbers(args, Stars(Read(s))).value;
    var c, t, next, k := ParseConversion(s, stars);
    var r := Converted(s[next], t, c, args[k..]).value;
    return r.0, next + 2, k + r.1;
  }

  /** vsnprintf: the buffer gets as much of the output as fits before a terminator, nothing is
      written past it, and the result is the length of the whole output. */
  method Vsnprintf(buffer: array<char>, bufSize: nat, format: string, args: seq<Arg>) returns (n: nat)
    requires bufSize <= buffer.Length && Printed(format, args).Some?
    modifies buffer
    ensures var text := Printed(format, args).value;
            && n == |text|
            && (bufSize > 0 ==>
                  var k := if n < bufSize - 1 then n else bufSize - 1;
                  buffer[..k + 1] == text[..k] + ['\0'])
    ensures forall i :: bufSize <= i < buffer.Length ==> buffer[i] == old(buffer[i])
  {
    hide Printed;
    var sink := new Sink(buffer, bufSize);
    VPrintf(format, args, sink);
    assert sink.text == Printed(format, args).value;
    if bufSize > 0 {
      var _ := Put(buffer, sink.Stored(), '\0');
    }
    n := sink.length;
  }

  // ----- what a conversion prints -----

  /** The arguments for the stars of a specification, and then others. */
  function WithStars(stars: seq<int>, args: seq<Arg>): seq<Arg>
  {
    seq(|stars|, i requires 0 <= i < |stars| => Int(stars[i])) + args
  }

  lemma {:induction false} NumbersOf(stars: seq<int>, args: seq<Arg>)
    ensures Numbers(WithStars(stars, args), |stars|) == Some(stars)
    ensures WithStars(stars, args)[|stars|..] == args
  {
    if stars != [] {
      NumbersOf(stars[1..], args);
      assert WithStars(stars, args)[1..] == WithStars(stars[1..], args);
      assert stars == [stars[0]] + stars[1..];
    }
  }

  function Format(sp: Spec, ch: char, rest: string): string
  {
    "%" + WriteSpec(sp) + [ch] + rest
  }

  lemma FormatRest(sp: Spec, ch: char, rest: string)
    ensures |Format(sp, ch, rest)| >= |WriteSpec(sp)| + 2 && Format(sp, ch, rest)[|WriteSpec(sp)| + 2..] == rest
  {
    hide WriteSpec;
  }

  /** A format that starts with a specification and a conversion character prints the directive
      made of them, and then the rest. */
  lemma PrintsFirst(sp: Spec, stars: seq<int>, ch: char, given: seq<Arg>, d: Directive, rest: string, args: seq<Arg>)
    requires Proper(sp) && |stars| == Stars(sp) && IsConversion(ch) && (ch != '%' || WriteSpec(sp) != "")
    requires Converted(ch, SizeOf(sp.size), Parsed(sp, stars), given + args) == Some((d, |given|))
    requires Printed(rest, args).Some?
    ensures Supported(d)
    ensures Printed(Format(sp, ch, rest), WithStars(stars, given + args)) ==
            Some(Piece(d) + Printed(rest, args).value)
  {
    hide Proper, WriteSpec, Parsed, First, Numbers, WithStars, SizeOf, IsConversion, Piece;
    var all := WithStars(stars, given + args);
    FormatRest(sp, ch, rest);
    FirstDirective(sp, stars, ch, given + args, rest);
    NumbersOf(stars, given + args);
    hide Format;
    assert all[|stars| + |given|..] == all[|stars|..][|given|..] == args;
  }

  lemma FirstDirective(sp: Spec, stars: seq<int>, ch: char, args: seq<Arg>, rest: string)
    requires Proper(sp) && |stars| == Stars(sp) && IsConversion(ch) && (ch != '%' || WriteSpec(sp) != "")
    requires Converted(ch, SizeOf(sp.size), Parsed(sp, stars), args).Some?
    ensures var d := Converted(ch, SizeOf(sp.size), Parsed(sp, stars), args).value;
            First(Format(sp, ch, rest), WithStars(stars, args)) ==
            Some((d.0, |WriteSpec(sp)| + 2, |stars| + d.1))
    ensures |WithStars(stars, args)| == |stars| + |args|
  {
    hide Proper, Read, WriteSpec, Parsed, Numbers, SizeOf, Stars, Converted, IsConversion;
    var t := [ch] + rest;
    var s := WriteSpec(sp) + t;
    assert Format(sp, ch, rest) == "%" + s && ("%" + s)[1..] == s;
    SpecStart(sp, t);
    ReadWrite(sp, t);
    NumbersOf(stars, args);
    assert s[|WriteSpec(sp)|] == ch;
  }

  /** A specification never starts with '%'. */
  lemma SpecStart(sp: Spec, t: string)
    requires Proper(sp) && t != "" && (t[0] != '%' || WriteSpec(sp) != "")
    ensures (WriteSpec(sp) + t)[0] != '%'
  {
    var s := WriteSpec(sp) + t;
    if sp.flags != "" {
      assert s[0] == sp.flags[0] && IsFlag(sp.flags[0]);
    } else if Write(sp.width) != "" {
      assert s[0] == Write(sp.width)[0];
    } else if sp.point {
      assert s[0] == '.';
    } else if sp.size != "" {
      assert s[0] == sp.size[0];
    } else {
      assert s == t;
    }
  }

  /** Whatever flags, width, precision and type a caller writes for 'd' or 'i', the field printed
      is that of the argument under the meaning of the specification; then the rest follows. */
  lemma PrintsDecimal(sp: Spec, stars: seq<int>, ch: char, v: int, rest: string, args: seq<Arg>)
    requires Proper(sp) && |stars| == Stars(sp) && Printed(rest, args).Some? && (ch == 'd' || ch == 'i')
    requires -(Modulus(SizeOf(sp.size)) / 2) <= v < Modulus(SizeOf(sp.size)) / 2
    ensures Printed(Format(sp, ch, rest), WithStars(stars, [Int(v)] + args)) ==
            Some(Field(Magnitude(v), true, v < 0, BASE_D, Parsed(sp, stars)) + Printed(rest, args).value)
    ensures BASE_D.base == 10
  {
    hide Proper, WriteSpec, Field, Parsed, Printed, WithStars, Modulus, SizeOf;
    SignedFits(SizeOf(sp.size), v);
    PrintsFirst(sp, stars, ch, [Int(v)], Integer(Magnitude(v), true, v < 0, BASE_D, Parsed(sp, stars)), rest, args);
  }

  /** "%d" prints a sign where the number is negative, and just its digits. */
  lemma PlainDecimal(v: int) returns (digits: string)
    requires -0x8000_0000 <= v < 0x8000_0000
    ensures Printed("%d", [Int(v)]) == Some((if v < 0 then "-" else "") + digits)
    ensures Eval(BASE_D, digits) == Magnitude(v) && |digits| == if v == 0 then 1 else NumDigits(Magnitude(v), BASE_D)
  {
    var sp := Spec("", Absent, false, Absent, "");
    PlainFormat(sp, v);
    hide *;
    digits := PlainField(Magnitude(v), v < 0);
    PrintsDecimal(sp, [], 'd', v, "", []);
    assert Field(Magnitude(v), true, v < 0, BASE_D, Normal("", 0, -1)) + "" == (if v < 0 then "-" else "") + digits;
  }

  lemma PlainFormat(sp: Spec, v: int)
    requires sp == Spec("", Absent, false, Absent, "")
    ensures Proper(sp) && Stars(sp) == 0 && Parsed(sp, []) == Normal("", 0, -1) && Format(sp, 'd', "") == "%d"
    ensures Printed("", []) == Some("") && WithStars([], [Int(v)] + []) == [Int(v)]
    ensures Modulus(SizeOf(sp.size)) / 2 == 0x8000_0000
  {
    hide Converted, First;
  }

  lemma PlainField(m: nat, negative: bool) returns (digits: string)
    requires m <= 0x8000_0000
    ensures Field(m, true, negative, BASE_D, Normal("", 0, -1)) == (if negative then "-" else "") + digits
    ensures Eval(BASE_D, digits) == m && |digits| == if m == 0 then 1 else NumDigits(m, BASE_D)
  {
    var c := Normal("", 0, -1);
    digits := Body(m, BASE_D, c);
    BodyValue(m, BASE_D, c);
    BareField(m, negative, c);
    NotEmpty(m, BASE_D, false, 0);
    BodyLength(m, BASE_D, c);
    hide Body, Backwards, Eval, Field;
  }

  lemma BareField(m: nat, negative: bool, c: Conversion)
    requires c == Normal("", 0, -1)
    ensures Field(m, true, negative, BASE_D, c) == (if negative then "-" else "") + Body(m, BASE_D, c)
  {
    hide Body, Known;
    assert Prefix(m, BASE_D, c) == "" && Sign(true, negative, c) == if negative then "-" else "";
  }

  /** The base that a conversion character stands for. */
  ghost predicate BaseOf(ch: char, b: Base)
  {
    && Known(b) && b.base == (if ch == 'u' then 10 else if ch == 'o' then 8 else 16)
    && (ch == 'x' ==> b.digits == "0123456789abcdef" && b.x == "x")
    && (ch == 'X' ==> b.digits == "0123456789ABCDEF" && b.x == "X")
  }

  /** 'u', 'o', 'x' and 'X' print the argument modulo the range of its type, in base 10, 8, 16 and
      16, with the letters of the last two in lower and in upper case. */
  lemma PrintsUnsigned(sp: Spec, stars: seq<int>, ch: char, v: int, rest: string, args: seq<Arg>) returns (b: Base, u: nat)
    requires Proper(sp) && |stars| == Stars(sp) && Printed(rest, args).Some? && ch in "uoxX"
    ensures u == v % Modulus(SizeOf(sp.size)) && BaseOf(ch, b)
    ensures Printed(Format(sp, ch, rest), WithStars(stars, [Int(v)] + args)) ==
            Some(Field(u, false, false, b, Parsed(sp, stars)) + Printed(rest, args).value)
    ensures Eval(b, Body(u, b, Parsed(sp, stars))) == u
  {
    hide Proper, WriteSpec, Field, Parsed, Printed, WithStars, Modulus, SizeOf, Eval, Body, Converted, Format;
    b := UnsignedBase(ch);
    var t, c := SizeOf(sp.size), Parsed(sp, stars);
    u := UnsignedOf(t, v);
    ConvertedUnsigned(ch, t, c, v, args, b);
    hide BaseOf;
    BodyValue(u, b, c);
    PrintsFirst(sp, stars, ch, [Int(v)], Integer(u, false, false, b, c), rest, args);
  }

  lemma UnsignedBase(ch: char) returns (b: Base)
    requires ch in "uoxX"
    ensures BaseOf(ch, b) && Known(b)
  {
    b := if ch == 'u' then BASE_D else if ch == 'o' then BASE_O else if ch == 'x' then BASE_X else BASE_XX;
  }

  lemma ConvertedUnsigned(ch: char, t: IntType, c: Conversion, v: int, args: seq<Arg>, b: Base)
    requires ch in "uoxX" && BaseOf(ch, b)
    ensures Converted(ch, t, c, [Int(v)] + args) == Some((Integer(UnsignedOf(t, v), false, false, b, c), 1))
  {
    hide UnsignedOf, SignedOf;
  }

  /** out is text between blanks on one side, at least width characters wide. */
  ghost predicate Justified(out: string, text: string, left: bool, width: int)
  {
    var n := |out| - |text|;
    && |out| == (if width > |text| then width else |text|)
    && (if left then out[..|text|] == text else out[n..] == text)
    && forall i :: (if left then |text| <= i < |out| else 0 <= i < n) ==> out[i] == ' '
  }

  lemma PointerField(v: nat, c: Conversion)
    requires !c.minus && !c.zero && c.pound
    ensures Justified(Field(v, false, false, BASE_X, c), (if v > 0 then "0x" else "") + Body(v, BASE_X, c), false, c.width)
  {
    assert "0" + BASE_X.x == "0x";
    hide Body, Known;
    var content := Prefix(v, BASE_X, c) + Body(v, BASE_X, c);
    assert Field(v, false, false, BASE_X, c) == Fill(' ', c.width - |content|) + content;
  }

  /** Everything of the meaning of a specification but its flags. */
  lemma AskedFor(sp: Spec, stars: seq<int>)
    requires |stars| == Stars(sp)
    ensures var c := Parsed(sp, stars);
            && c.minus == ('-' in sp.flags || WidthOf(sp, stars) < 0) && c.width == Magnitude(WidthOf(sp, stars))
            && c.precision == (if PrecisionOf(sp, stars) < 0 then -1 else PrecisionOf(sp, stars))
  {}

  lemma ConvertedPointer(t: IntType, c: Conversion, v: nat, args: seq<Arg>)
    requires v < 0x1_0000_0000
    ensures Converted('p', t, c, [Int(v)] + args) ==
            Some((Integer(v, false, false, BASE_X, PLAIN.(pound := true, width := c.width, precision := c.precision)), 1))
  {
    hide UnsignedOf, SignedOf;
  }

  lemma ConvertedText(t: IntType, c: Conversion, arg: Arg, args: seq<Arg>)
    requires !arg.Int?
    ensures Converted('s', t, c, [arg] + args) == Some((Textual(Shown(arg, c.precision), c), 1))
  {
    hide UnsignedOf, SignedOf;
  }

  lemma ConvertedChar(t: IntType, c: Conversion, v: int, args: seq<Arg>)
    ensures Converted('c', t, c, [Int(v)] + args) == Some((Textual([(v % 0x100) as char], c), 1))
  {
    hide UnsignedOf, SignedOf;
  }

  /** 'p' prints "0x" and the hexadecimal address, or zeros for a null pointer, at the right of its
      width whatever the flags. */
  lemma PrintsPointer(sp: Spec, stars: seq<int>, v: nat, rest: string, args: seq<Arg>)
    returns (piece: string, body: string)
    requires Proper(sp) && |stars| == Stars(sp) && Printed(rest, args).Some? && v < 0x1_0000_0000
    ensures Printed(Format(sp, 'p', rest), WithStars(stars, [Int(v)] + args)) == Some(piece + Printed(rest, args).value)
    ensures Justified(piece, (if v > 0 then "0x" else "") + body, false, Magnitude(WidthOf(sp, stars)))
    ensures Eval(BASE_X, body) == v && BASE_X.base == 16
    ensures body == Body(v, BASE_X, Normal("#", Magnitude(WidthOf(sp, stars)), PrecisionOf(sp, stars)))
  {
    hide Proper, WriteSpec, Printed, WithStars, SizeOf, Eval, Body, Converted, Format, Justified, Field, Parsed, WidthOf, PrecisionOf;
    var c0 := Parsed(sp, stars);
    var c := Normal("#", Magnitude(WidthOf(sp, stars)), PrecisionOf(sp, stars));
    AskedFor(sp, stars);
    piece, body := Field(v, false, false, BASE_X, c), Body(v, BASE_X, c);
    ConvertedPointer(SizeOf(sp.size), c0, v, args);
    BodyValue(v, BASE_X, c);
    PointerField(v, c);
    assert c == PLAIN.(pound := true, width := c0.width, precision := c0.precision);
    hide Normal;
    PrintsFirst(sp, stars, 'p', [Int(v)], Integer(v, false, false, BASE_X, c), rest, args);
  }

  /** As much of a text as a precision shows; a null pointer shows as "(null)". */
  function Shown(arg: Arg, precision: int): string
    requires !arg.Int?
  {
    var text := if arg.Null? then "(null)" else arg.text;
    if 0 <= precision < |text| then text[..precision] else text
  }

  lemma PieceJustified(text: string, c: Conversion)
    ensures Justified(Piece(Textual(text, c)), text, c.minus, c.width)
  {}

  /** 's' prints the text, or as many of its characters as the precision says, at the left of its
      width exactly with a '-' or a negative width. */
  lemma PrintsText(sp: Spec, stars: seq<int>, arg: Arg, rest: string, args: seq<Arg>) returns (piece: string)
    requires Proper(sp) && |stars| == Stars(sp) && Printed(rest, args).Some? && !arg.Int?
    ensures Printed(Format(sp, 's', rest), WithStars(stars, [arg] + args)) == Some(piece + Printed(rest, args).value)
    ensures Justified(piece, Shown(arg, PrecisionOf(sp, stars)),
                      '-' in sp.flags || WidthOf(sp, stars) < 0, Magnitude(WidthOf(sp, stars)))
  {
    hide Proper, WriteSpec, Printed, WithStars, SizeOf, Converted, Format, Justified, Parsed, WidthOf, PrecisionOf, Piece;
    var c := Parsed(sp, stars);
    AskedFor(sp, stars);
    var d := Textual(Shown(arg, c.precision), c);
    piece := Piece(d);
    PieceJustified(d.text, c);
    ConvertedText(SizeOf(sp.size), c, arg, args);
    assert Shown(arg, c.precision) == Shown(arg, PrecisionOf(sp, stars));
    hide Shown;
    PrintsFirst(sp, stars, 's', [arg], d, rest, args);
  }

  /** 'c' prints the character of the argument's low byte, whatever the precision. */
  lemma PrintsChar(sp: Spec, stars: seq<int>, v: int, rest: string, args: seq<Arg>) returns (piece: string)
    requires Proper(sp) && |stars| == Stars(sp) && Printed(rest, args).Some?
    ensures Printed(Format(sp, 'c', rest), WithStars(stars, [Int(v)] + args)) == Some(piece + Printed(rest, args).value)
    ensures Justified(piece, [(v % 0x100) as char],
                      '-' in sp.flags || WidthOf(sp, stars) < 0, Magnitude(WidthOf(sp, stars)))
  {
    hide Proper, WriteSpec, Printed, WithStars, SizeOf, Converted, Format, Justified, Parsed, WidthOf, PrecisionOf, Piece;
    var c := Parsed(sp, stars);
    AskedFor(sp, stars);
    var d := Textual([(v % 0x100) as char], c);
    piece := Piece(d);
    PieceJustified(d.text, c);
    ConvertedChar(SizeOf(sp.size), c, v, args);
    PrintsFirst(sp, stars, 'c', [Int(v)], d, rest, args);
  }

  /** What is printed for a conversion character that is not supported. */
  function Remark(ch: char): string
  {
    "<<no %" + [ch] + (if ch in "feEgGn" then " in kernel>>" else " conversion>>")
  }

  lemma ConvertedRemark(ch: char, t: IntType, c: Conversion, args: seq<Arg>)
    requires ch !in "dioxXucsp"
    ensures Converted(ch, t, c, args) == Some((Textual(Remark(ch), PLAIN), 0))
    ensures Piece(Textual(Remark(ch), PLAIN)) == Remark(ch)
  {}

  /** A conversion that is not supported prints a remark and takes no argument. */
  lemma PrintsRemark(sp: Spec, stars: seq<int>, ch: char, rest: string, args: seq<Arg>)
    requires Proper(sp) && |stars| == Stars(sp) && Printed(rest, args).Some?
    requires IsConversion(ch) && ch !in "dioxXucsp" && (ch != '%' || WriteSpec(sp) != "")
    ensures Printed(Format(sp, ch, rest), WithStars(stars, args)) == Some(Remark(ch) + Printed(rest, args).value)
  {
    hide Proper, WriteSpec, Parsed, Printed, WithStars, SizeOf, Converted, IsConversion, Format, Remark, Piece;
    ConvertedRemark(ch, SizeOf(sp.size), Parsed(sp, stars), args);
    assert [] + args == args;
    PrintsFirst(sp, stars, ch, [], Textual(Remark(ch), PLAIN), rest, args);
  }

  /** Anything else is copied, and "%%" prints a percent sign. */
  lemma PrintsLiteral(ch: char, rest: string, args: seq<Arg>)
    requires Printed(rest, args).Some?
    ensures ch != '%' ==> Printed([ch] + rest, args) == Some([ch] + Printed(rest, args).value)
    ensures Printed("%%" + rest, args) == Some("%" + Printed(rest, args).value)
  {
    hide Converted, Read, WriteSpec, Parsed, Numbers, Stars, SizeOf;
    assert ([ch] + rest)[1..] == rest && ("%%" + rest)[2..] == rest;
    assert args[0..] == args;
  }

  /** The range of each type that a length modifier names. */
  lemma TypeRanges()
    ensures Modulus(SizeOf("hh")) == 0x100 && Modulus(SizeOf("h")) == 0x1_0000
    ensures forall size :: size in ["", "l", "t", "z"] ==> Modulus(SizeOf(size)) == 0x1_0000_0000
    ensures forall size :: size in ["j", "ll"] ==> Modulus(SizeOf(size)) == 0x1_0000_0000_0000_0000
  {}

  /** atoi reads back what printf prints for any int and any proper specification, exactly
      when the digits are not grouped or are at most three. */
  lemma AtoiOfPrintf(sp: Spec, stars: seq<int>, v: int)
    requires Proper(sp) && |stars| == Stars(sp) && sp.size == "" && -0x8000_0000 <= v < 0x8000_0000
    ensures Printed("%" + WriteSpec(sp) + "d", WithStars(stars, [Int(v)])).Some?
    ensures Number(Printed("%" + WriteSpec(sp) + "d", WithStars(stars, [Int(v)])).value) == v <==>
            '\'' !in sp.flags || -1000 < v < 1000
  {
    hide Field, Number, WriteSpec, Proper, First;
    assert Printed("", []) == Some("");
    PrintsDecimal(sp, stars, 'd', v, "", []);
    assert [Int(v)] + [] == [Int(v)] && "%" + WriteSpec(sp) + ['d'] + "" == "%" + WriteSpec(sp) + "d";
    var c := Parsed(sp, stars);
    var f := Field(Magnitude(v), true, v < 0, BASE_D, c);
    assert f + "" == f;
    if c.grouped { AtoiUndoesGrouped(v, c); } else { AtoiUndoesPrintf(v, c); }
  }
}
