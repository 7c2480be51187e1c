/** The conversion specifications of printf: what parse_conversion (lib/stdio.c) makes of the
    flags, the field width, the precision and the type that a caller wrote. */
module Conversions {
  import opened Numerals
  import opened Printf
  import opened Atoi

  datatype IntType = CHAR | SHORT | INT | INTMAX | LONG | LONGLONG | PTRDIFFT | SIZET

  // ----- what the caller writes -----

  /** A field width or a precision: left out, written as digits, or '*' for an argument. */
  datatype Amount = Absent | Digits(text: string) | Star

  /** Flags, width, precision (without or after a point) and type, in their order. */
  datatype Spec = Spec(flags: string, width: Amount, point: bool, precision: Amount, size: string)

  predicate IsFlag(c: char) { c in "-+ #0'" }

  predicate Proper(s: Spec)
  {
    && (forall i :: 0 <= i < |s.flags| ==> IsFlag(s.flags[i]))
    && (s.width.Digits? ==> s.width.text != "" && AllDecimal(s.width.text) && s.width.text[0] != '0')
    && (s.precision.Digits? ==> s.precision.text != "" && AllDecimal(s.precision.text))
    && (s.precision != Absent ==> s.point)
    && s.size in ["", "hh", "h", "j", "ll", "l", "t", "z"]
  }

  function Write(a: Amount): string
  {
    match a
    case Absent => ""
    case Digits(text) => text
    case Star => "*"
  }

  function WriteSpec(s: Spec): string
  {
    s.flags + Write(s.width) + (if s.point then "." else "") + Write(s.precision) + s.size
  }

  /** The number an amount stands for. */
  function Meaning(a: Amount, arg: int): int
  {
    match a
    case Absent => 0
    case Digits(text) => Eval(BASE_D, text)
    case Star => arg
  }

  function SizeOf(size: string): IntType
  {
    if size == "hh" then CHAR
    else if size == "h" then SHORT
    else if size == "j" then INTMAX
    else if size == "ll" then LONGLONG
    else if size == "l" then LONG
    else if size == "t" then PTRDIFFT
    else if size == "z" then SIZET
    else INT
  }

  /** The conversion that parse_conversion stores for flags, a width (negative ones come from
      '*' alone) and a precision (negative if none).  Note the order: '-' takes '0' away before
      the width is read, and a negative width adds '-' afterwards. */
  function Normal(flags: string, width: int, precision: int): Conversion
  {
    Conversion('-' in flags || width < 0,
               '+' in flags,
               ' ' in flags && '+' !in flags,
               '#' in flags,
               '0' in flags && '-' !in flags && precision < 0,
               '\'' in flags,
               if width < 0 then -width else width,
               if precision < 0 then -1 else precision)
  }

  /** The width a caller asks for is met but for a '0' without '-' and with a negative '*' width
      and no precision, and there exactly when the content is at least as wide. */
  lemma WidthMet(value: nat, isSigned: bool, negative: bool, b: Base, flags: string, width: int, precision: int)
    requires Known(b)
    ensures var c := Normal(flags, width, precision);
            var content := ContentLength(value, isSigned, negative, b, c);
            var asked := if width < 0 then -width else width;
            |Field(value, isSigned, negative, b, c)| == (if asked > content then asked else content) <==>
            !('0' in flags && '-' !in flags && width < 0 && precision < 0) || asked <= content
  {
    hide Sign, Prefix, Body, Fill, Known, Field;
    FieldWidth(value, isSigned, negative, b, Normal(flags, width, precision));
  }

  /** Where everything in a field goes, in terms of what the caller asked for. */
  lemma FieldPlaced(value: nat, isSigned: bool, negative: bool, b: Base, flags: string, width: int, precision: int)
    requires Known(b)
    ensures var c := Normal(flags, width, precision);
            var left := '-' in flags || width < 0;
            var zero := '0' in flags && '-' !in flags && precision < 0;
            var sign := if !isSigned then "" else if negative then "-"
                        else if '+' in flags then "+" else if ' ' in flags then " " else "";
            var prefix := if '#' in flags && value > 0 && b.base == 16 then ['0'] + b.x else "";
            var body := Body(value, b, c);
            var asked := if width < 0 then -width else width;
            var pad := asked - |sign| - |prefix| - |body|;
            var k := if pad > 0 then pad else 0;
            Field(value, isSigned, negative, b, c) ==
            (if left || zero then "" else seq(k, _ => ' ')) + sign + prefix
            + (if zero then seq(k, _ => '0') else "") + body + (if left then seq(k, _ => ' ') else "")
    ensures var c := Normal(flags, width, precision);
            && c.grouped == ('\'' in flags) && c.pound == ('#' in flags)
            && c.precision == (if precision < 0 then -1 else precision)
  {
    var c := Normal(flags, width, precision);
    SignIs(isSigned, negative, flags, width, precision);
    PrefixIs(value, b, flags, width, precision);
    hide Sign, Prefix, Body, Fill, Known;
    var pad := c.width - |Body(value, b, c)| - |Prefix(value, b, c)| - |Sign(isSigned, negative, c)|;
    FillIs(' ', pad);
    FillIs('0', pad);
  }

  lemma SignIs(isSigned: bool, negative: bool, flags: string, width: int, precision: int)
    ensures Sign(isSigned, negative, Normal(flags, width, precision)) ==
            if !isSigned then "" else if negative then "-"
            else if '+' in flags then "+" else if ' ' in flags then " " else ""
  {}

  lemma PrefixIs(value: nat, b: Base, flags: string, width: int, precision: int)
    requires Known(b)
    ensures Prefix(value, b, Normal(flags, width, precision)) ==
            if '#' in flags && value > 0 && b.base == 16 then ['0'] + b.x else ""
  {}

  lemma FillIs(ch: char, n: int)
    ensures Fill(ch, n) == seq(if n > 0 then n else 0, _ => ch)
  {}

  /** The smallest case: 42 with flag '0' and a '*' width of -8 takes fourteen characters. */
  lemma WidthExample()
    ensures Normal("0", -8, -1) == Conversion(true, false, false, false, true, false, 8, -1)
    ensures |Field(42, true, false, BASE_D, Normal("0", -8, -1))| == 14
  {
    var c := Normal("0", -8, -1);
    NoDigits(2);
    OneDigit(42, 0);
    OneDigit(4, 1);
    assert |Backwards(42, BASE_D, false, 0)| == 2;
    hide Backwards;
    assert |Body(42, BASE_D, c)| == 2;
    FieldWidth(42, true, false, BASE_D, c);
  }

  // ----- reading it back -----

  function FlagRun(s: string): (n: nat)
    ensures n <= |s| && (forall i :: 0 <= i < n ==> IsFlag(s[i])) && (n < |s| ==> !IsFlag(s[n]))
  {
    if s == "" || !IsFlag(s[0]) then 0 else 1 + FlagRun(s[1..])
  }

  function AmountAt(s: string): Amount
  {
    if s != "" && s[0] == '*' then Star
    else if DigitRun(s) == 0 then Absent
    else Digits(s[..DigitRun(s)])
  }

  function SizeAt(s: string): string
  {
    if s == "" then ""
    else if s[0] == 'h' then (if |s| > 1 && s[1] == 'h' then "hh" else "h")
    else if s[0] == 'l' then (if |s| > 1 && s[1] == 'l' then "ll" else "l")
    else if s[0] == 'j' || s[0] == 't' || s[0] == 'z' then [s[0]]
    else ""
  }

  function PrecisionAt(s: string): (bool, Amount)
  {
    if s != "" && s[0] == '.' then (true, AmountAt(s[1..])) else (false, Absent)
  }

  function WritePrecision(p: (bool, Amount)): string
  {
    (if p.0 then "." else "") + Write(p.1)
  }

  /** The specification a format string starts with, after its '%'. */
  function Read(s: string): Spec
  {
    var f := FlagRun(s);
    var width := AmountAt(s[f..]);
    AmountFits(s[f..]);
    var u := s[f + |Write(width)|..];
    var p := PrecisionAt(u);
    PrecisionFits(u);
    Spec(s[..f], width, p.0, p.1, SizeAt(u[|WritePrecision(p)|..]))
  }

  lemma AmountFits(s: string)
    ensures |Write(AmountAt(s))| <= |s| && Write(AmountAt(s)) == s[..|Write(AmountAt(s))|]
  {
  }

  lemma PrecisionFits(s: string)
    ensures |WritePrecision(PrecisionAt(s))| <= |s|
    ensures WritePrecision(PrecisionAt(s)) == s[..|WritePrecision(PrecisionAt(s))|]
  {
    if s != "" && s[0] == '.' {
      AmountFits(s[1..]);
      var n := |Write(AmountAt(s[1..]))|;
      assert s[..1 + n] == "." + s[1..][..n];
    }
  }

  lemma SizeFits(s: string)
    ensures |SizeAt(s)| <= |s| && SizeAt(s) == s[..|SizeAt(s)|]
  {
  }

  /** A character that ends a specification. */
  predicate IsConversion(c: char) { c !in "-+ #'*.hjltz0123456789" }

  lemma AmountRead(a: Amount, t: string)
    requires a.Digits? ==> a.text != "" && AllDecimal(a.text)
    requires t != "" && !IsDecimal(t[0]) && t[0] != '*'
    ensures AmountAt(Write(a) + t) == a
  {
    var s := Write(a) + t;
    match a
    case Absent => assert s == t;
    case Star => assert s[0] == '*';
    case Digits(text) =>
      assert s[..|text|] == text && s[|text|] == t[0] && s[0] == text[0];
      DigitRunIs(s, |text|);
  }

  lemma SizeRead(size: string, rest: string)
    requires size in ["", "hh", "h", "j", "ll", "l", "t", "z"] && rest != "" && IsConversion(rest[0])
    ensures SizeAt(size + rest) == size
    ensures var t := size + rest; t != "" && (IsConversion(t[0]) || t[0] in "hjltz")
  {
    var t := size + rest;
    assert t[|size|] == rest[0];
    assert size == "" ==> t == rest;
  }

  lemma PrecisionRead(point: bool, a: Amount, t: string)
    requires (a.Digits? ==> a.text != "" && AllDecimal(a.text)) && (a != Absent ==> point)
    requires t != "" && (IsConversion(t[0]) || t[0] in "hjltz")
    ensures PrecisionAt(WritePrecision((point, a)) + t) == (point, a)
    ensures var u := WritePrecision((point, a)) + t;
            u != "" && (IsConversion(u[0]) || u[0] in "hjltz" || u[0] == '.')
  {
    var u := WritePrecision((point, a)) + t;
    if point {
      assert u[0] == '.' && u[1..] == Write(a) + t;
      AmountRead(a, t);
    } else {
      assert u == t;
    }
  }

  lemma FlagsRead(flags: string, t: string)
    requires forall i :: 0 <= i < |flags| ==> IsFlag(flags[i])
    requires t != "" && !IsFlag(t[0])
    ensures FlagRun(flags + t) == |flags|
  {
    var s := flags + t;
    var n := FlagRun(s);
    assert s[|flags|] == t[0];
    assert forall i :: 0 <= i < |flags| ==> s[i] == flags[i];
    assert n >= |flags|;
  }

  /** Every proper specification, written before a conversion letter, is read back as it is. */
  lemma ReadWrite(sp: Spec, rest: string)
    requires Proper(sp) && rest != "" && IsConversion(rest[0])
    ensures Read(WriteSpec(sp) + rest) == sp
  {
    hide FlagRun, AmountAt, PrecisionAt, SizeAt, Write, WritePrecision, WriteSpec, IsFlag, IsConversion;
    var p := (sp.point, sp.precision);
    var t4 := sp.size + rest;
    SizeRead(sp.size, rest);
    PrecisionRead(sp.point, sp.precision, t4);
    var t2 := WritePrecision(p) + t4;
    AmountStops(t2);
    AmountRead(sp.width, t2);
    var t1 := Write(sp.width) + t2;
    WidthStart(sp.width, t2);
    FlagsRead(sp.flags, t1);
    SpecParts(sp, rest);
    var s := sp.flags + t1;
    assert s[..|sp.flags|] == sp.flags && s[|sp.flags|..] == t1;
    assert s[|sp.flags| + |Write(sp.width)|..] == t2;
    assert t2[|WritePrecision(p)|..] == t4;
  }

  lemma AmountStops(t: string)
    requires t != "" && (IsConversion(t[0]) || t[0] in "hjltz" || t[0] == '.')
    ensures !IsDecimal(t[0]) && t[0] != '*'
  {
  }

  lemma SpecParts(sp: Spec, rest: string)
    ensures WriteSpec(sp) + rest ==
            sp.flags + (Write(sp.width) + (WritePrecision((sp.point, sp.precision)) + (sp.size + rest)))
  {
    var a, b, c, d := sp.flags, Write(sp.width), WritePrecision((sp.point, sp.precision)), sp.size;
    var dot := if sp.point then "." else "";
    Concat3(a + b, dot, Write(sp.precision));
    Concat3(a, b, c + (d + rest));
    Concat3(b, c, d + rest);
    Concat3(a + b, c, d + rest);
    Concat3(a + b + c, d, rest);
  }

  lemma WidthStart(a: Amount, t: string)
    requires a.Digits? ==> a.text != "" && AllDecimal(a.text) && a.text[0] != '0'
    requires t != "" && (IsConversion(t[0]) || t[0] in "hjltz" || t[0] == '.')
    ensures Write(a) + t != "" && !IsFlag((Write(a) + t)[0])
  {
    var u := Write(a) + t;
    match a
    case Absent => assert u == t;
    case Star => assert u[0] == '*';
    case Digits(text) => assert u[0] == text[0] && IsDecimal(text[0]);
  }

  lemma ReadExample()
    ensures Read("0*d") == Spec("0", Star, false, Absent, "")
  {
    var sp := Spec("0", Star, false, Absent, "");
    ReadWrite(sp, "d");
    assert WriteSpec(sp) + "d" == "0*d";
  }

  // ----- parse_conversion -----

  function Stars(sp: Spec): nat
  {
    (if sp.width.Star? then 1 else 0) + (if sp.precision.Star? then 1 else 0)
  }

  /** A specification takes one argument for each star that is written in it. */
  lemma StarsWritten(sp: Spec)
    requires Proper(sp)
    ensures multiset(WriteSpec(sp))['*'] == Stars(sp)
  {
    var dot := if sp.point then "." else "";
    NoStar(sp.flags);
    NoStar(dot);
    NoStar(sp.size);
    AmountStars(sp.width);
    AmountStars(sp.precision);
    hide Proper, Write;
  }

  lemma NoStar(s: string)
    requires forall i :: 0 <= i < |s| ==> s[i] != '*'
    ensures multiset(s)['*'] == 0
  {
    assert '*' !in s;
  }

  lemma AmountStars(a: Amount)
    requires a.Digits? ==> AllDecimal(a.text)
    ensures multiset(Write(a))['*'] == if a.Star? then 1 else 0
  {
    if !a.Star? { NoStar(Write(a)); }
  }

  /** What the specification means with its arguments. */
  function Parsed(sp: Spec, args: seq<int>): Conversion
    requires Stars(sp) <= |args|
  {
    Normal(sp.flags, WidthOf(sp, args), PrecisionOf(sp, args))
  }

  /** The width asked for, negative for one at the left, and the precision, negative for none. */
  function WidthOf(sp: Spec, args: seq<int>): int
    requires Stars(sp) <= |args|
  {
    Meaning(sp.width, if sp.width.Star? then args[0] else 0)
  }

  function PrecisionOf(sp: Spec, args: seq<int>): int
    requires Stars(sp) <= |args|
  {
    if !sp.point then -1
    else Meaning(sp.precision, if sp.precision.Star? then args[if sp.width.Star? then 1 else 0] else 0)
  }

  /** The flag loop. */
  method ScanFlags(s: string) returns (c: Conversion, p: nat)
    ensures p == FlagRun(s)
    ensures var f := s[..p];
            c == Conversion('-' in f, '+' in f, ' ' in f, '#' in f, '0' in f, '\'' in f, 0, -1)
  {
    c := Conversion(false, false, false, false, false, false, 0, -1);
    p := 0;
    assert s[..0] == "";
    while p < |s| && IsFlag(s[p])
      invariant p <= |s| && forall i :: 0 <= i < p ==> IsFlag(s[i])
      invariant var f := s[..p];
                c == Conversion('-' in f, '+' in f, ' ' in f, '#' in f, '0' in f, '\'' in f, 0, -1)
      decreases |s| - p
    {
      assert s[..p + 1] == s[..p] + [s[p]];
      match s[p] {
        case '-' => c := c.(minus := true);
        case '+' => c := c.(plus := true);
        case ' ' => c := c.(space := true);
        case '#' => c := c.(pound := true);
        case '0' => c := c.(zero := true);
        case _ => c := c.(grouped := true);
      }
      p := p + 1;
    }
    FlagRunIs(s, p);
  }

  lemma FlagRunIs(s: string, p: nat)
    requires p <= |s| && (forall i :: 0 <= i < p ==> IsFlag(s[i])) && (p < |s| ==> !IsFlag(s[p]))
    ensures FlagRun(s) == p
  {
  }

  /** A width or a precision: '*' takes an argument, digits are evaluated. */
  method ScanAmount(s: string, p: nat, arg: int) returns (value: int, star: bool, next: nat)
    requires p <= |s|
    ensures var a := AmountAt(s[p..]);
            && value == Meaning(a, arg) && star == a.Star? && next == p + |Write(a)| <= |s|
  {
    ghost var t := s[p..];
    ghost var a := AmountAt(t);
    if p < |s| && s[p] == '*' { return arg, true, p + 1; }
    var n;
    value, n := ScanDigits(s, p);
    next, star := p + n, false;
    if n == 0 { assert t[..0] == ""; EvalNone(BASE_D); }
  }

  method ScanDigits(s: string, p: nat) returns (value: nat, n: nat)
    requires p <= |s|
    ensures n == DigitRun(s[p..]) && value == Eval(BASE_D, s[p..][..n])
  {
    hide Eval;
    ghost var t := s[p..];
    value, n := 0, 0;
    EvalNone(BASE_D);
    assert t[..0] == "";
    while p + n < |s| && IsDecimal(s[p + n])
      invariant p + n <= |s| && value == Eval(BASE_D, t[..n])
      invariant forall i :: 0 <= i < n ==> IsDecimal(t[i])
      decreases |s| - n
    {
      assert s[p + n] == t[n];
      EvalPush(BASE_D, t[..n], t[n]);
      assert t[..n + 1] == t[..n] + [t[n]];
      value := value * 10 + (s[p + n] as int - '0' as int);
      n := n + 1;
    }
    assert forall i :: 0 <= i < n ==> t[..n][i] == t[i];
    assert p + n < |s| ==> t[n] == s[p + n];
    DigitRunIs(t, n);
  }

  /** A point and a precision, or neither. */
  method ScanPrecision(s: string, p: nat, arg: int) returns (precision: int, star: bool, next: nat)
    requires p <= |s|
    ensures var a := PrecisionAt(s[p..]);
            && precision == (if a.0 then Meaning(a.1, arg) else -1) && star == a.1.Star?
            && next == p + |WritePrecision(a)| <= |s|
  {
    hide AmountAt, Meaning, Write;
    precision, star, next := -1, false, p;
    ghost var t := s[p..];
    WriteNothing();
    if p < |s| && s[p] == '.' {
      assert t[0] == '.' && t[1..] == s[p + 1..];
      precision, star, next := ScanAmount(s, p + 1, arg);
    }
  }

  lemma WriteNothing()
    ensures Write(Absent) == ""
  {
  }

  /** Where the parts of the specification lie. */
  lemma ReadParts(s: string)
    ensures var sp, f := Read(s), FlagRun(s);
            var q := f + |Write(sp.width)|;
            && q <= |s|
            && var r := q + |WritePrecision((sp.point, sp.precision))|;
            && r <= |s| && r + |sp.size| == |WriteSpec(sp)| <= |s|
            && sp.flags == s[..f] && sp.width == AmountAt(s[f..])
            && (sp.point, sp.precision) == PrecisionAt(s[q..]) && sp.size == SizeAt(s[r..])
  {
    hide FlagRun, AmountAt, PrecisionAt, SizeAt, Write;
    var sp, f := Read(s), FlagRun(s);
    AmountFits(s[f..]);
    var q := f + |Write(sp.width)|;
    PrecisionFits(s[q..]);
    var r := q + |WritePrecision((sp.point, sp.precision))|;
    assert s[q..][r - q..] == s[r..];
    SizeFits(s[r..]);
  }

  /** The assignments between and after the scans, in their order. */
  method Settle(c0: Conversion, width: int, precision: int, ghost f: string) returns (c: Conversion)
    requires c0 == Conversion('-' in f, '+' in f, ' ' in f, '#' in f, '0' in f, '\'' in f, 0, -1)
    ensures c == Normal(f, width, precision)
  {
    c := c0;
    if c.minus { c := c.(zero := false); }
    if c.plus { c := c.(space := false); }
    c := c.(width := width);
    if c.width < 0 { c := c.(width := -c.width, minus := true); }
    c := c.(precision := precision);
    if c.precision < 0 { c := c.(precision := -1); }
    if c.precision >= 0 { c := c.(zero := false); }
  }

  /** parse_conversion.  It reads the specification the string starts with, whatever the
      string, and with the arguments that its stars ask for. */
  method ParseConversion(s: string, args: seq<int>) returns (c: Conversion, t: IntType, next: nat, used: nat)
    requires Stars(Read(s)) <= |args|
    ensures var sp := Read(s);
            && c == Parsed(sp, args) && t == SizeOf(sp.size)
            && next == |WriteSpec(sp)| <= |s| && used == Stars(sp)
  {
    ReadParts(s);
    hide Read, WriteSpec, FlagRun, AmountAt, PrecisionAt, SizeAt, IsFlag, Meaning, Write, WritePrecision, SizeOf,
         Normal, Parsed;
    var p;
    c, p := ScanFlags(s);
    var width, star, q := ScanAmount(s, p, if |args| > 0 then args[0] else 0);
    used := if star then 1 else 0;
    var precision, star2, r := ScanPrecision(s, q, if |args| > used then args[used] else 0);
    used := used + if star2 then 1 else 0;
    c := Settle(c, width, precision, s[..p]);
    ParsedIs(Read(s), args, width, precision);
    var size := SizeAt(s[r..]);
    t := SizeOf(size);
    next := r + |size|;
  }

  /** Only a star's meaning depends on the argument. */
  lemma ParsedIs(sp: Spec, args: seq<int>, width: int, precision: int)
    requires Stars(sp) <= |args| && width == Meaning(sp.width, if |args| > 0 then args[0] else 0)
    requires var used := if sp.width.Star? then 1 else 0;
             precision == if sp.point then Meaning(sp.precision, if |args| > used then args[used] else 0) else -1
    ensures Parsed(sp, args) == Normal(sp.flags, width, precision)
  {
    hide Normal;
  }
}
