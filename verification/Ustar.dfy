/** Headers of ustar archives (lib/ustar.c): composing one, and parsing it back.  The format
    is that of the section "ustar Interchange Format" of the pax utility in IEEE Std
    1003.1-2001. */
module Ustar {
  import opened Options
  import opened Numerals
  import opened Printf
  import opened OctalFields

  const HEADER_SIZE: nat := 512
  const INT_MAX: int := 0x7fff_ffff
  const MTIME: nat := 1136102400

  datatype FileType = Regular | Directory

  function TypeFlag(t: FileType): char
  {
    match t
    case Regular => '0'
    case Directory => '5'
  }

  // ----- strip_antisocial_prefixes -----

  predicate StartsWith(s: string, p: string)
  {
    |p| <= |s| && s[..|p|] == p
  }

  /** The bytes of one prefix to drop, or 0. */
  function Antisocial(s: string): (n: nat)
    ensures n <= |s|
  {
    if StartsWith(s, "/") then 1
    else if StartsWith(s, "./") then 2
    else if StartsWith(s, "../") then 3
    else 0
  }

  function DropPrefixes(s: string): string
    decreases |s|
  {
    if Antisocial(s) == 0 then s else DropPrefixes(s[Antisocial(s)..])
  }

  function Strip(s: string): string
  {
    var r := DropPrefixes(s);
    if r == "" || r == ".." then "." else r
  }

  /** A name an extractor may use. */
  predicate Social(s: string)
  {
    && s != "" && s != ".." && s[0] != '/'
    && (|s| >= 2 ==> s[..2] != "./") && (|s| >= 3 ==> s[..3] != "../")
  }

  lemma {:induction false} DropPrefixesSuffix(s: string)
    ensures Antisocial(DropPrefixes(s)) == 0
    ensures |DropPrefixes(s)| <= |s| && DropPrefixes(s) == s[|s| - |DropPrefixes(s)|..]
    decreases |s|
  {
    if Antisocial(s) != 0 {
      DropPrefixesSuffix(s[Antisocial(s)..]);
    }
  }

  lemma DotSocial()
    ensures Social(".")
  {}

  lemma SocialIs(s: string)
    ensures Social(s) <==> Antisocial(s) == 0 && s != "" && s != ".."
  {
    if s != "" { assert s[..1] == "/" <==> s[0] == '/'; }
  }

  lemma SocialStays(s: string)
    requires Social(s)
    ensures Strip(s) == s
  {
    SocialIs(s);
  }

  /** Every name becomes a social one, a suffix of itself or ".", and exactly the social names
      stay as they are: stripping twice is stripping once. */
  lemma StripSocial(s: string)
    ensures Social(Strip(s)) && (Strip(s) == s <==> Social(s)) && Strip(Strip(s)) == Strip(s)
    ensures Strip(s) == "." || (|Strip(s)| <= |s| && Strip(s) == s[|s| - |Strip(s)|..])
  {
    hide DropPrefixes;
    DropPrefixesSuffix(s);
    DotSocial();
    SocialIs(DropPrefixes(s));
    SocialIs(s);
    SocialStays(Strip(s));
    if Social(s) { SocialStays(s); }
  }

  /** The loop of strip_antisocial_prefixes, which moves a pointer into the name. */
  method StripPrefixes(s: string) returns (r: string)
    ensures r == Strip(s)
  {
    var p := 0;
    while Antisocial(s[p..]) != 0
      invariant p <= |s| && DropPrefixes(s[p..]) == DropPrefixes(s)
      decreases |s| - p
    {
      assert s[p..][Antisocial(s[p..])..] == s[p + Antisocial(s[p..])..];
      p := p + Antisocial(s[p..]);
    }
    r := if s[p..] == "" || s[p..] == ".." then "." else s[p..];
  }

  // ----- the checksum -----

  /** The sum of the bytes, as if those of the checksum field were spaces. */
  function SumTo(h: string, n: nat): nat
    requires n <= |h|
  {
    if n == 0 then 0
    else SumTo(h, n - 1) + if 148 <= n - 1 < 156 then ' ' as nat else h[n - 1] as nat
  }

  function Checksum(h: string): nat
  {
    SumTo(h, |h|)
  }

  /** The sum of the bytes of s. */
  function Total(s: string): nat
  {
    if s == "" then 0 else Total(s[..|s| - 1]) + s[|s| - 1] as nat
  }

  /** The checksum is the sum of the bytes outside its field and eight times that of a space. */
  lemma ChecksumIs(h: string)
    requires |h| == HEADER_SIZE
    ensures Checksum(h) == Total(h[..148]) + 8 * 32 + Total(h[156..])
  {
    SumBefore(h, 148);
    SumAfter(h, HEADER_SIZE);
    assert h[156..HEADER_SIZE] == h[156..];
    SumField(h, 156);
  }

  lemma {:induction false} SumField(h: string, n: nat)
    requires 148 <= n <= 156 && n <= |h|
    ensures SumTo(h, n) == SumTo(h, 148) + (n - 148) * 32
  {
    if n > 148 { SumField(h, n - 1); }
  }

  lemma {:induction false} SumBefore(h: string, n: nat)
    requires n <= |h| && n <= 148
    ensures SumTo(h, n) == Total(h[..n])
  {
    if n > 0 {
      SumBefore(h, n - 1);
      assert h[..n][..n - 1] == h[..n - 1];
    }
  }

  lemma {:induction false} SumAfter(h: string, n: nat)
    requires 156 <= n <= |h|
    ensures SumTo(h, n) == SumTo(h, 156) + Total(h[156..n])
  {
    if n > 156 {
      SumAfter(h, n - 1);
      assert h[156..n][..n - 157] == h[156..n - 1];
    }
  }

  predicate Octets(s: string) { forall i :: 0 <= i < |s| ==> s[i] as int < 256 }

  lemma {:induction false} SumBound(h: string, n: nat)
    requires n <= |h| && Octets(h)
    ensures SumTo(h, n) <= 255 * n
  {
    if n > 0 { SumBound(h, n - 1); }
  }

  /** The checksum does not depend on its own field. */
  lemma {:induction false} SumIgnoresField(h: string, g: string, n: nat)
    requires n <= |h| == |g|
    requires forall i :: 0 <= i < |h| && !(148 <= i < 156) ==> h[i] == g[i]
    ensures SumTo(h, n) == SumTo(g, n)
  {
    if n > 0 { SumIgnoresField(h, g, n - 1); }
  }

  /** A checksum fits seven octal digits. */
  lemma ChecksumFits(h: string)
    requires |h| == HEADER_SIZE && Octets(h)
    ensures Checksum(h) <= 130560 && Checksum(h) < Pow8(7)
  {
    SumBound(h, |h|);
    assert Pow8(7) == 2097152 by { assert Pow8(4) == 4096; }
  }

  /** calculate_chksum. */
  method CalculateChecksum(h: string) returns (sum: nat)
    ensures sum == Checksum(h)
  {
    sum := 0;
    for i := 0 to |h|
      invariant sum == SumTo(h, i)
    {
      sum := sum + if 148 <= i < 156 then ' ' as nat else h[i] as nat;
    }
  }

  // ----- ustar_make_header -----

  /** struct ustar_header. */
  datatype Header = Header(
    name: string, mode: string, uid: string, gid: string, size: string, mtime: string,
    chksum: string,
    typeflag: char, linkname: string, magic: string, version: string, uname: string, gname: string,
    devmajor: string, devminor: string, prefix: string, padding: string)

  predicate Sized(h: Header)
  {
    && |h.name| == 100 && |h.mode| == 8 && |h.uid| == 8 && |h.gid| == 8 && |h.size| == 12 && |h.mtime| == 12
    && |h.chksum| == 8
    && |h.linkname| == 100 && |h.magic| == 6 && |h.version| == 2 && |h.uname| == 32 && |h.gname| == 32
    && |h.devmajor| == 8 && |h.devminor| == 8 && |h.prefix| == 155 && |h.padding| == 12
  }

  function Front(h: Header): string
  {
    h.name + h.mode + h.uid + h.gid + h.size + h.mtime
  }

  function Back(h: Header): string
  {
    [h.typeflag] + h.linkname + h.magic + h.version + h.uname + h.gname
    + h.devmajor + h.devminor + h.prefix + h.padding
  }

  /** The header as bytes. */
  function Pack(h: Header): string
  {
    Front(h) + h.chksum + Back(h)
  }

  /** Bytes seen as a header. */
  function Cast(b: string): Header
    requires |b| == HEADER_SIZE
  {
    Header(b[0..100], b[100..108], b[108..116], b[116..124], b[124..136], b[136..148],
           b[148..156],
           b[156], b[157..257], b[257..263], b[263..265], b[265..297], b[297..329],
           b[329..337], b[337..345], b[345..500], b[500..512])
  }

  lemma PackSize(h: Header)
    requires Sized(h)
    ensures |Front(h)| == 148 && |Back(h)| == 356 && |Pack(h)| == HEADER_SIZE
  {
  }

  lemma CastFront(h: Header)
    requires Sized(h)
    ensures var f := Front(h);
            && f[0..100] == h.name && f[100..108] == h.mode && f[108..116] == h.uid
            && f[116..124] == h.gid && f[124..136] == h.size && f[136..148] == h.mtime
  {
  }

  lemma CastBack(h: Header)
    requires Sized(h)
    ensures var f := Back(h);
            && f[0] == h.typeflag && f[1..101] == h.linkname && f[101..107] == h.magic
            && f[107..109] == h.version && f[109..141] == h.uname && f[141..173] == h.gname
            && f[173..181] == h.devmajor && f[181..189] == h.devminor && f[189..344] == h.prefix
            && f[344..356] == h.padding
  {
  }

  /** Writing a header as bytes and casting them back gives its fields. */
  lemma CastPack(h: Header)
    requires Sized(h)
    ensures |Pack(h)| == HEADER_SIZE && Cast(Pack(h)) == h
  {
    hide Front, Back;
    PackSize(h);
    CastFront(h);
    CastBack(h);
    var b := Pack(h);
    assert b[..148] == Front(h) && b[148..156] == h.chksum && b[156..] == Back(h);
    forall i, j | 0 <= i <= j <= 148 ensures b[i..j] == Front(h)[i..j] {
      assert b[i..j] == b[..148][i..j];
    }
    forall i, j | 156 <= i <= j <= 512 ensures b[i..j] == Back(h)[i - 156..j - 156] {
      assert b[i..j] == b[156..][i - 156..j - 156];
    }
  }

  function Zeros(n: nat): string { seq(n, i => '\0') }

  /** s and null bytes up to n characters, as strlcpy leaves them in a zeroed field. */
  function Pad(s: string, n: nat): string
    requires |s| <= n
  {
    s + Zeros(n - |s|)
  }

  /** The value "%o" prints for an int. */
  function Unsigned(size: int): nat
    requires -0x8000_0000 <= size <= INT_MAX
  {
    if size < 0 then size + 0x1_0000_0000 else size
  }

  /** All of a header but its checksum. */
  function Unsummed(name: string, t: FileType, size: int): Header
    requires |name| <= 99 && -0x8000_0000 <= size <= INT_MAX
  {
    Header(Pad(name, 100), Octal(if t == Regular then 420 else 493, 7) + "\0", "0000000\0", "0000000\0",
           Octal(Unsigned(size), 11) + "\0", Octal(MTIME, 11) + "\0",
           Zeros(8),
           TypeFlag(t), Zeros(100), "ustar\0", "00", Pad("root", 32), Pad("root", 32),
           Zeros(8), Zeros(8), Zeros(155), Zeros(12))
  }

  function WithSum(h: Header, sum: nat): Header
  {
    h.(chksum := Octal(sum, 7) + "\0")
  }

  lemma Pow8Is()
    ensures Pow8(7) == 0x20_0000 && Pow8(11) == 0x2_0000_0000
  {
    assert Pow8(4) == 4096;
    assert Pow8(7) == 512 * Pow8(4);
    assert Pow8(11) == 4096 * Pow8(7) by { assert Pow8(9) == 64 * Pow8(7); }
  }

  lemma UnsummedSized(name: string, t: FileType, size: int)
    requires |name| <= 99 && -0x8000_0000 <= size <= INT_MAX
    ensures Sized(Unsummed(name, t, size))
  {
    hide Octal;
    Pow8Is();
    OctalIs(if t == Regular then 420 else 493, 7);
    OctalIs(Unsigned(size), 11);
    OctalIs(MTIME, 11);
  }

  lemma OctetsConcat(s: string, t: string)
    requires Octets(s) && Octets(t)
    ensures Octets(s + t)
  {
  }

  lemma OctalOctets(s: string)
    requires AllOctal(s)
    ensures Octets(s + "\0")
  {
  }

  lemma FieldOctets(name: string, t: FileType, size: int)
    requires |name| <= 99 && Octets(name) && -0x8000_0000 <= size <= INT_MAX
    ensures var h := Unsummed(name, t, size);
            && Octets(h.name) && Octets(h.mode) && Octets(h.size) && Octets(h.mtime)
            && Octets(h.uname)
  {
    hide Octal;
    Pow8Is();
    OctalIs(if t == Regular then 420 else 493, 7);
    OctalIs(Unsigned(size), 11);
    OctalIs(MTIME, 11);
    OctalOctets(Octal(if t == Regular then 420 else 493, 7));
    OctalOctets(Octal(Unsigned(size), 11));
    OctalOctets(Octal(MTIME, 11));
  }

  lemma UnsummedOctets(name: string, t: FileType, size: int)
    requires |name| <= 99 && Octets(name) && -0x8000_0000 <= size <= INT_MAX
    ensures Octets(Pack(Unsummed(name, t, size)))
  {
    hide Octal;
    FieldOctets(name, t, size);
    var h := Unsummed(name, t, size);
    assert Octets(h.uid) && Octets(h.gid);
    assert Octets(Front(h));
    assert Octets([h.typeflag] + h.linkname + h.magic + h.version);
    assert Octets(Back(h));
    OctetsConcat(Front(h), h.chksum);
    OctetsConcat(Front(h) + h.chksum, Back(h));
  }

  /** The checksum of a header is that of the header without it. */
  lemma SumOfHeader(h: Header, sum: string)
    requires Sized(h) && |sum| == 8
    ensures Checksum(Pack(h.(chksum := sum))) == Checksum(Pack(h))
  {
    hide Front, Back;
    var g := h.(chksum := sum);
    PackSize(h);
    PackSize(g);
    assert Front(g) == Front(h) && Back(g) == Back(h) by { SameEnds(h, sum); }
    SumIgnoresField(Pack(g), Pack(h), HEADER_SIZE);
  }

  lemma SameEnds(h: Header, sum: string)
    ensures Front(h.(chksum := sum)) == Front(h) && Back(h.(chksum := sum)) == Back(h)
  {
  }

  /** ustar_make_header; no header for a name that is too long even when stripped. */
  method MakeHeader(fileName: string, t: FileType, size: int) returns (r: Option<string>)
    requires Octets(fileName) && -0x8000_0000 <= size <= INT_MAX
    ensures r.Some? <==> |Strip(fileName)| <= 99
    ensures r.Some? ==>
              var h := Unsummed(Strip(fileName), t, size);
              r.value == Pack(WithSum(h, Checksum(Pack(h))))
  {
    hide Strip, Checksum, Octal, Pack;
    var name := StripPrefixes(fileName);
    if |name| > 99 { return None; }
    var h := Header(Zeros(100), Zeros(8), Zeros(8), Zeros(8), Zeros(12), Zeros(12), Zeros(8), '\0', Zeros(100),
                    Zeros(6), Zeros(2), Zeros(32), Zeros(32), Zeros(8), Zeros(8), Zeros(155), Zeros(12));
    h := h.(name := Pad(name, 100));
    h := h.(mode := Octal(if t == Regular then 420 else 493, 7) + "\0");
    h := h.(uid := "0000000\0", gid := "0000000\0");
    h := h.(size := Octal(Unsigned(size), 11) + "\0");
    h := h.(mtime := Octal(MTIME, 11) + "\0");
    h := h.(typeflag := TypeFlag(t), magic := "ustar\0", version := "00");
    h := h.(gname := Pad("root", 32), uname := Pad("root", 32));
    var sum := CalculateChecksum(Pack(h));
    r := Some(Pack(WithSum(h, sum)));
  }

  // ----- ustar_parse_header -----

  datatype Parsed = Eof | File(name: string, fileType: FileType, size: nat) | Error(message: string)

  /** The C string that starts a field. */
  function CString(s: string): string
  {
    if s == "" || s[0] == '\0' then "" else [s[0]] + CString(s[1..])
  }

  /** ustar_parse_header on 512 bytes. */
  function Parse(b: string): Parsed
    requires |b| == HEADER_SIZE
  {
    var h := Cast(b);
    if b == Zeros(HEADER_SIZE) then Eof
    else if h.magic != "ustar\0" then Error("not a ustar archive")
    else if h.version[0] != '0' || h.version[1] != '0' then Error("invalid ustar version")
    else if FieldValue(h.chksum).None? then Error("corrupt chksum field")
    else if FieldValue(h.chksum).value != Checksum(b) then Error("checksum mismatch")
    else if h.name[99] != '\0' || h.prefix[0] != '\0' then Error("file name too long")
    else if h.typeflag != TypeFlag(Regular) && h.typeflag != TypeFlag(Directory) then Error("unimplemented file type")
    else if h.typeflag == TypeFlag(Regular) then
      if FieldValue(h.size).None? then Error("corrupt file size field")
      else if FieldValue(h.size).value > INT_MAX then Error("file too large")
      else File(Strip(CString(h.name)), Regular, FieldValue(h.size).value)
    else File(Strip(CString(h.name)), Directory, 0)
  }

  lemma {:induction false} CStringPad(s: string, n: nat)
    requires |s| < n && '\0' !in s
    ensures CString(Pad(s, n)) == s
  {
    if s != "" {
      assert Pad(s, n)[1..] == Pad(s[1..], n - 1);
      CStringPad(s[1..], n - 1);
    }
  }

  lemma {:induction false} StripNoNull(s: string)
    requires '\0' !in s
    ensures '\0' !in Strip(s)
  {
    DropPrefixesSuffix(s);
  }

  lemma {:induction false} StripOctets(s: string)
    requires Octets(s)
    ensures Octets(Strip(s))
  {
    DropPrefixesSuffix(s);
  }

  /** Parsing a header that was composed gives back the stripped name, the type and, for a
      regular file whose size is not negative, the size; a directory's size reads as 0, and a
      regular file of negative size is refused. */
  lemma HeaderRoundTrip(fileName: string, t: FileType, size: int)
    requires Octets(fileName) && '\0' !in fileName && |Strip(fileName)| <= 99
    requires -0x8000_0000 <= size <= INT_MAX
    ensures var h := Unsummed(Strip(fileName), t, size);
            var b := Pack(WithSum(h, Checksum(Pack(h))));
            && |b| == HEADER_SIZE
            && Parse(b) == if t == Directory then File(Strip(fileName), Directory, 0)
                           else if size >= 0 then File(Strip(fileName), Regular, size)
                           else Error("file too large")
  {
    hide Octal, Strip, Checksum, FieldValue, Pack, Octets, CString, Unsummed;
    var name := Strip(fileName);
    var h := Unsummed(name, t, size);
    StripOctets(fileName);
    UnsummedSized(name, t, size);
    UnsummedOctets(name, t, size);
    CastPack(h);
    var sum := Checksum(Pack(h));
    ChecksumFits(Pack(h));
    OctalIs(sum, 7);
    FieldRoundTrip(sum, 7);
    var g := WithSum(h, sum);
    SumOfHeader(h, g.chksum);
    CastPack(g);
    NameRead(fileName, t, size);
    NotAllZero(Pack(g), g);
    SizeRead(name, t, size);
  }

  /** What the fields of a composed header mean, byte range by byte range. */
  lemma HeaderFields(fileName: string, t: FileType, size: int)
    requires Octets(fileName) && '\0' !in fileName && |Strip(fileName)| <= 99
    requires -0x8000_0000 <= size <= INT_MAX
    ensures var h := Unsummed(Strip(fileName), t, size);
            var b := Pack(WithSum(h, Checksum(Pack(h))));
            && |b| == HEADER_SIZE
            && CString(b[0..100]) == Strip(fileName)
            && FieldValue(b[100..108]) == Some(if t == Regular then 6 * 64 + 4 * 8 + 4 else 7 * 64 + 5 * 8 + 5)
            && FieldValue(b[108..116]) == FieldValue(b[116..124]) == Some(0)
            && FieldValue(b[124..136]) == Some(if size < 0 then size + 0x1_0000_0000 else size)
            && FieldValue(b[136..148]) == Some(1136102400)
            && FieldValue(b[148..156]) == Some(Total(b[..148]) + 8 * 32 + Total(b[156..]))
            && b[156] == (if t == Regular then '0' else '5')
            && b[257..263] == "ustar\0" && b[263..265] == "00"
            && CString(b[265..297]) == "root" && CString(b[297..329]) == "root"
            && b[157..257] == Zeros(100) && b[329..512] == Zeros(183)
  {
    hide Octal, Strip, Checksum, FieldValue, Pack, Octets, CString, Unsummed, Cast;
    var name := Strip(fileName);
    var h := Unsummed(name, t, size);
    StripOctets(fileName);
    UnsummedSized(name, t, size);
    UnsummedOctets(name, t, size);
    ChecksumFits(Pack(h)) by { CastPack(h); }
    var sum := Checksum(Pack(h));
    OctalIs(sum, 7);
    FieldRoundTrip(sum, 7);
    var g := WithSum(h, sum);
    SumOfHeader(h, g.chksum);
    CastPack(g);
    ChecksumIs(Pack(g));
    UnsummedFields(fileName, t, size);
    CastRanges(Pack(g));
  }

  lemma CastRanges(b: string)
    requires |b| == HEADER_SIZE
    ensures var h := Cast(b);
            && b[0..100] == h.name && b[100..108] == h.mode && b[108..116] == h.uid && b[116..124] == h.gid
            && b[124..136] == h.size && b[136..148] == h.mtime && b[148..156] == h.chksum && b[156] == h.typeflag
            && b[157..257] == h.linkname && b[257..263] == h.magic && b[263..265] == h.version
            && b[265..297] == h.uname && b[297..329] == h.gname
            && b[329..512] == h.devmajor + h.devminor + h.prefix + h.padding
  {}

  lemma UnsummedFields(fileName: string, t: FileType, size: int)
    requires '\0' !in fileName && |Strip(fileName)| <= 99 && -0x8000_0000 <= size <= INT_MAX
    ensures var h := Unsummed(Strip(fileName), t, size);
            && CString(h.name) == Strip(fileName)
            && FieldValue(h.mode) == Some(if t == Regular then 6 * 64 + 4 * 8 + 4 else 7 * 64 + 5 * 8 + 5)
            && FieldValue(h.uid) == FieldValue(h.gid) == Some(0)
            && FieldValue(h.size) == Some(if size < 0 then size + 0x1_0000_0000 else size)
            && FieldValue(h.mtime) == Some(1136102400)
            && h.typeflag == (if t == Regular then '0' else '5') && h.magic == "ustar\0" && h.version == "00"
            && CString(h.uname) == CString(h.gname) == "root"
            && h.linkname == Zeros(100) && h.devmajor + h.devminor + h.prefix + h.padding == Zeros(183)
  {
    hide Octal, Strip, FieldValue, CString;
    StripNoNull(fileName);
    CStringPad(Strip(fileName), 100);
    CStringPad("root", 32);
    Pow8Is();
    FieldRoundTrip(if t == Regular then 420 else 493, 7);
    FieldRoundTrip(Unsigned(size), 11);
    FieldRoundTrip(MTIME, 11);
    ZeroField();
  }

  lemma ZeroField()
    ensures FieldValue("0000000\0") == Some(0)
  {
    var s := "0000000\0";
    OctalRunIs(s, 7);
    EvalZeros(BASE_O, 7, "");
    EvalNone(BASE_O);
    assert s[..7] == seq(7, i => '0') + "";
  }

  /** Just which blocks are taken for files, and as what. */
  lemma ParseAccepts(b: string, name: string, t: FileType, size: nat)
    requires |b| == HEADER_SIZE
    ensures Parse(b) == File(name, t, size) <==>
            && b[257..263] == "ustar\0" && b[263..265] == "00"
            && FieldValue(b[148..156]) == Some(Total(b[..148]) + 8 * 32 + Total(b[156..]))
            && b[99] == '\0' && b[345] == '\0'
            && b[156] == (if t == Regular then '0' else '5')
            && name == Strip(CString(b[0..100]))
            && (if t == Regular then FieldValue(b[124..136]) == Some(size) && size <= INT_MAX else size == 0)
    ensures Parse(b) == Eof <==> forall i :: 0 <= i < HEADER_SIZE ==> b[i] == '\0'
  {
    hide Strip, CString, FieldValue, Checksum;
    ChecksumIs(b);
    assert b[257..263][0] == b[257];
    assert b[263..265] == [b[263], b[264]];
    if forall i :: 0 <= i < HEADER_SIZE ==> b[i] == '\0' { assert b == Zeros(HEADER_SIZE); }
  }

  lemma NotAllZero(b: string, h: Header)
    requires |b| == HEADER_SIZE && Cast(b) == h && h.magic == "ustar\0"
    ensures b != Zeros(HEADER_SIZE)
  {
    assert b[257] == h.magic[0];
  }

  lemma NameRead(fileName: string, t: FileType, size: int)
    requires '\0' !in fileName && |Strip(fileName)| <= 99 && -0x8000_0000 <= size <= INT_MAX
    ensures var h := Unsummed(Strip(fileName), t, size);
            && h.name[99] == '\0' && h.prefix[0] == '\0' && h.magic == "ustar\0" && h.version == "00"
            && h.typeflag == TypeFlag(t) && Strip(CString(h.name)) == Strip(fileName)
  {
    hide Octal, Strip, CString;
    StripNoNull(fileName);
    StripSocial(fileName);
    CStringPad(Strip(fileName), 100);
  }

  lemma SizeRead(name: string, t: FileType, size: int)
    requires |name| <= 99 && -0x8000_0000 <= size <= INT_MAX
    ensures FieldValue(Unsummed(name, t, size).size) == Some(Unsigned(size))
  {
    hide Octal, FieldValue;
    Pow8Is();
    FieldRoundTrip(Unsigned(size), 11);
  }
}
