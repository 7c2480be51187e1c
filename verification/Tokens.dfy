/** strtok_r (lib/string.c): words of a text between delimiters, found by overwriting the
    delimiter after each word with a null byte. */
module Tokens {
  import opened Options
  import opened Bytes

  /** The number of leading delimiters. */
  function Gap(t: seq<byte>, delims: seq<byte>): (n: nat)
    ensures n <= |t| && (forall i :: 0 <= i < n ==> t[i] in delims)
    ensures n < |t| ==> t[n] !in delims
  {
    if t == [] || t[0] !in delims then 0 else 1 + Gap(t[1..], delims)
  }

  /** The number of leading bytes before a delimiter. */
  function Run(t: seq<byte>, delims: seq<byte>): (n: nat)
    ensures n <= |t| && (forall i :: 0 <= i < n ==> t[i] !in delims)
    ensures n < |t| ==> t[n] in delims
  {
    if t == [] || t[0] in delims then 0 else 1 + Run(t[1..], delims)
  }

  /** The words of t, in order. */
  function Words(t: seq<byte>, delims: seq<byte>): seq<seq<byte>>
    decreases |t|
  {
    var k := Gap(t, delims);
    if k == |t| then []
    else
      var m := Run(t[k..], delims);
      [t[k..k + m]] + Words(t[k + m..], delims)
  }

  /** Words separated by gaps: what a reader of a command line expects Words to undo. */
  function Spell(words: seq<seq<byte>>, gaps: seq<seq<byte>>): seq<byte>
    requires |gaps| == |words|
  {
    if words == [] then [] else gaps[0] + words[0] + Spell(words[1..], gaps[1..])
  }

  ghost predicate Word(w: seq<byte>, delims: seq<byte>)
  {
    w != [] && forall c :: c in w ==> c !in delims
  }

  ghost predicate GapOf(g: seq<byte>, delims: seq<byte>)
  {
    forall c :: c in g ==> c in delims
  }

  lemma WordsNone(t: seq<byte>, delims: seq<byte>)
    requires forall i :: 0 <= i < |t| ==> t[i] in delims
    ensures Words(t, delims) == []
  {
  }

  /** The first word, by position. */
  lemma {:induction false} WordsStep(t: seq<byte>, k: nat, m: nat, delims: seq<byte>)
    requires 0 < m && k + m <= |t|
    requires forall i :: 0 <= i < k ==> t[i] in delims
    requires forall i :: k <= i < k + m ==> t[i] !in delims
    requires k + m < |t| ==> t[k + m] in delims
    ensures Words(t, delims) == [t[k..k + m]] + Words(t[k + m..], delims)
  {
    hide Words;
    assert Gap(t, delims) == k by { assert t[k] !in delims; }
    var u := t[k..];
    assert forall i :: 0 <= i < m ==> u[i] == t[k + i];
    assert m < |u| ==> u[m] in delims;
    assert Run(u, delims) == m;
    WordsUnfold(t, delims);
  }

  lemma {:induction false} WordsUnfold(t: seq<byte>, delims: seq<byte>)
    requires Gap(t, delims) < |t|
    ensures var k := Gap(t, delims);
            var m := Run(t[k..], delims);
            Words(t, delims) == [t[k..k + m]] + Words(t[k + m..], delims)
  {
    hide Gap, Run;
  }

  /** Splitting undoes spelling, whatever the gaps, as long as those between words are not
      empty. */
  lemma {:induction false} WordsOfSpell(words: seq<seq<byte>>, gaps: seq<seq<byte>>, tail: seq<byte>,
                                        delims: seq<byte>)
    requires |gaps| == |words| && GapOf(tail, delims)
    requires forall i :: 0 <= i < |words| ==> Word(words[i], delims) && GapOf(gaps[i], delims)
    requires forall i :: 0 < i < |gaps| ==> gaps[i] != []
    ensures Words(Spell(words, gaps) + tail, delims) == words
    decreases |words|
  {
    hide Words;
    var t := Spell(words, gaps) + tail;
    if words == [] {
      assert forall i :: 0 <= i < |t| ==> t[i] in tail;
      WordsNone(t, delims);
    } else {
      var g, w := gaps[0], words[0];
      var rest := Spell(words[1..], gaps[1..]) + tail;
      assert t == g + w + rest;
      assert forall i :: 0 <= i < |g| ==> t[i] == g[i] && g[i] in g;
      assert forall i :: |g| <= i < |g| + |w| ==> t[i] == w[i - |g|] && w[i - |g|] in w;
      if rest != [] { RestStartsWithGap(words, gaps, tail, delims); }
      WordsStep(t, |g|, |w|, delims);
      assert t[|g|..|g| + |w|] == w && t[|g| + |w|..] == rest;
      WordsOfSpell(words[1..], gaps[1..], tail, delims);
    }
  }

  lemma RestStartsWithGap(words: seq<seq<byte>>, gaps: seq<seq<byte>>, tail: seq<byte>, delims: seq<byte>)
    requires |gaps| == |words| > 0 && GapOf(tail, delims)
    requires forall i :: 0 <= i < |words| ==> Word(words[i], delims) && GapOf(gaps[i], delims)
    requires forall i :: 0 < i < |gaps| ==> gaps[i] != []
    requires Spell(words[1..], gaps[1..]) + tail != []
    ensures (Spell(words[1..], gaps[1..]) + tail)[0] in delims
  {
    var rest := Spell(words[1..], gaps[1..]) + tail;
    if |words| == 1 {
      assert rest == tail;
      assert rest[0] in tail;
    } else {
      assert rest[0] == gaps[1][0];
      assert gaps[1][0] in gaps[1];
    }
  }

  /** The null-terminated string at p is w. */
  ghost predicate StringAt(mem: seq<byte>, p: int, w: seq<byte>)
  {
    0 <= p && p + |w| < |mem| && mem[p..p + |w|] == w && mem[p + |w|] == 0 && 0 !in w
  }

  ghost predicate NoNull(a: seq<byte>, from: nat, to: nat)
    requires from <= to <= |a|
  {
    forall i :: from <= i < to ==> a[i] != 0
  }

  /** The two scanning loops of strtok_r: past delimiters, then past the word. */
  method ScanToken(a: array<byte>, s: nat, ghost len: nat, delims: seq<byte>) returns (p: nat, e: nat)
    requires s <= len < a.Length && a[len] == 0 && NoNull(a[..], s, len) && 0 !in delims
    ensures s <= p <= e <= len
    ensures forall i :: s <= i < p ==> a[i] in delims
    ensures forall i :: p <= i < e ==> a[i] !in delims
    ensures p == e ==> p == len
    ensures e < len ==> a[e] in delims
  {
    assert forall i :: s <= i < len ==> a[i] == a[..][i];
    p := s;
    while a[p] in delims
      invariant s <= p <= len && forall i :: s <= i < p ==> a[i] in delims
      decreases len - p
    {
      p := p + 1;
    }
    e := p;
    while a[e] !in delims && a[e] != 0
      invariant p <= e <= len && forall i :: p <= i < e ==> a[i] !in delims
      invariant e == p ==> a[e] !in delims
      decreases len - e
    {
      e := e + 1;
    }
  }

  /** strtok_r from position s of a text that ends at len: the next word, made a string of its
      own, and the position from which the others follow. */
  method NextToken(a: array<byte>, s: nat, ghost len: nat, delims: seq<byte>) returns (token: Option<nat>, save: nat)
    requires s <= len < a.Length && a[len] == 0 && NoNull(a[..], s, len) && 0 !in delims
    modifies a
    ensures s <= save <= len && forall i :: 0 <= i < s || save <= i < a.Length ==> a[i] == old(a[i])
    ensures Words(old(a[s..len]), delims) == [] ==> token == None && save == len
    ensures Words(old(a[s..len]), delims) != [] ==>
              var w := Words(old(a[s..len]), delims)[0];
              && token.Some? && s <= token.value && StringAt(a[..], token.value, w)
              && (token.value + |w| < save || save == len)
              && Words(old(a[s..len]), delims)[1..] == Words(a[save..len], delims)
  {
    hide Words, StringAt;
    ghost var b := a[..];
    var p, e := ScanToken(a, s, len, delims);
    assert a[s..len] == b[s..len];
    if a[p] == 0 {
      NoToken(b, s, p, len, delims);
      return None, p;
    }
    token, save := Some(p), e;
    if a[e] != 0 { a[e], save := 0, e + 1; }
    TokenFound(b, a[..], s, p, e, save, len, delims);
    assert a[save..len] == a[..][save..len];
  }

  lemma NoToken(b: seq<byte>, s: nat, p: nat, len: nat, delims: seq<byte>)
    requires s <= p <= len < |b| && NoNull(b, s, len) && b[p] == 0
    requires forall i :: s <= i < p ==> b[i] in delims
    ensures p == len && Words(b[s..len], delims) == []
  {
    WordsNone(b[s..len], delims);
  }

  /** The token at p .. e-1, ended in place. */
  lemma TokenFound(b: seq<byte>, c: seq<byte>, s: nat, p: nat, e: nat, save: nat, len: nat, delims: seq<byte>)
    requires s <= p < e <= len < |b| && NoNull(b, s, len) && b[len] == 0
    requires forall i :: s <= i < p ==> b[i] in delims
    requires forall i :: p <= i < e ==> b[i] !in delims
    requires e < len ==> b[e] in delims
    requires if b[e] != 0 then c == b[e := 0] && save == e + 1 else c == b && save == e
    ensures var words := Words(b[s..len], delims);
            && words != [] && StringAt(c, p, words[0])
            && (p + |words[0]| < save || save == len) && save <= len
            && words[1..] == Words(c[save..len], delims)
  {
    hide Words;
    var t := b[s..len];
    assert forall j :: 0 <= j < |t| ==> t[j] == b[s + j];
    FirstWord(t, p - s, e - p, delims);
    assert t[p - s..e - s] == c[p..e];
    assert e < len <==> b[e] != 0;
    if e < len { assert c[e + 1..len] == t[e + 1 - s..]; } else { assert c[e..len] == t[e - s..]; }
  }

  /** What strtok_r leaves: the words after the first, with or without the delimiter that
      ended it. */
  lemma FirstWord(t: seq<byte>, k: nat, m: nat, delims: seq<byte>)
    requires 0 < m && k + m <= |t| && NoNull(t, 0, |t|)
    requires forall i :: 0 <= i < k ==> t[i] in delims
    requires forall i :: k <= i < k + m ==> t[i] !in delims
    requires k + m < |t| ==> t[k + m] in delims
    ensures var words := Words(t, delims);
            && |words| > 0 && words[0] == t[k..k + m] && 0 !in words[0]
            && words[1..] == Words(t[k + m..], delims)
            && (k + m < |t| ==> words[1..] == Words(t[k + m + 1..], delims))
  {
    hide Words;
    WordsStep(t, k, m, delims);
    if k + m < |t| {
      SkipOne(t[k + m..], delims);
      assert t[k + m..][1..] == t[k + m + 1..];
    }
  }

  /** One leading delimiter does not change the words. */
  lemma Later(t: seq<byte>, i: nat, j: nat)
    requires i <= j < |t|
    ensures t[1..][i..] == t[i + 1..] && t[1..][i..j] == t[i + 1..j + 1]
  {}

  lemma {:induction false} SkipOne(t: seq<byte>, delims: seq<byte>)
    requires t != [] && t[0] in delims
    ensures Words(t, delims) == Words(t[1..], delims)
  {
    hide Words, Run, Gap;
    var t1 := t[1..];
    var k := Gap(t1, delims);
    GapLater(t, delims);
    if k == |t1| {
      WordsNone(t1, delims);
      WordsNone(t, delims);
    } else {
      WordsUnfold(t1, delims);
      WordsUnfold(t, delims);
      Later(t, k, k);
      var m := Run(t1[k..], delims);
      Later(t, k, k + m);
      Later(t, k + m, k + m);
    }
  }

  lemma {:induction false} GapLater(t: seq<byte>, delims: seq<byte>)
    requires t != [] && t[0] in delims
    ensures Gap(t, delims) == Gap(t[1..], delims) + 1
  {}

  /** The words found so far are strings of the buffer, at these positions. */
  ghost predicate Found(mem: seq<byte>, argv: seq<nat>, words: seq<seq<byte>>, p: nat, len: nat)
    requires |argv| <= |words|
  {
    forall k :: 0 <= k < |argv| ==>
      StringAt(mem, argv[k], words[k]) && (argv[k] + |words[k]| < p || p == len)
  }

  method StrLen(a: array<byte>, ghost len: nat) returns (n: nat)
    requires len < a.Length && a[len] == 0 && NoNull(a[..], 0, len)
    ensures n == len
  {
    n := 0;
    while a[n] != 0
      invariant n <= len
      decreases len - n
    {
      n := n + 1;
    }
  }

  /** strlcpy of the string that ends at len into a buffer of any size. */
  method StrlCpy(dst: array<byte>, src: array<byte>, ghost len: nat) returns (srcLen: nat)
    requires len < src.Length && src[len] == 0 && NoNull(src[..], 0, len) && dst != src
    modifies dst
    ensures srcLen == len
    ensures dst.Length > 0 ==>
              var n := if len < dst.Length then len else dst.Length - 1;
              dst[..n] == src[..n] && dst[n] == 0 && dst[n + 1..] == old(dst[n + 1..])
  {
    srcLen := StrLen(src, len);
    if dst.Length > 0 {
      var n := dst.Length - 1;
      if srcLen < n { n := srcLen; }
      forall i | 0 <= i < n { dst[i] := src[i]; }
      dst[n] := 0;
    }
  }

  /** The counting loop of push_args over strtok_r. */
  method CountTokens(a: array<byte>, len: nat, delims: seq<byte>) returns (argc: nat)
    requires len < a.Length && a[len] == 0 && NoNull(a[..], 0, len) && 0 !in delims
    modifies a
    ensures argc == |Words(old(a[..len]), delims)|
  {
    hide Words, StringAt;
    ghost var words := Words(a[..len], delims);
    argc := 0;
    assert a[0..len] == a[..len];
    var p: nat := 0;
    var token := Some(p);
    while token.Some?
      invariant p <= len && a[len] == 0 && NoNull(a[..], p, len)
      invariant argc <= |words| && words[argc..] == Words(a[p..len], delims)
      invariant token.None? ==> argc == |words|
      decreases |words| - argc, token.Some?
    {
      ghost var was := a[..];
      assert a[p..len] == was[p..len];
      token, p := NextToken(a, p, len, delims);
      if token.Some? {
        assert words[argc + 1..] == words[argc..][1..];
        argc := argc + 1;
      } else {
        WordsNone(a[p..len], delims);
      }
    }
  }

  /** The collecting loop of push_args: the first argc words, in order, are strings of the
      buffer. */
  method Tokenize(a: array<byte>, len: nat, delims: seq<byte>, argc: nat) returns (argv: seq<nat>)
    requires len < a.Length && a[len] == 0 && NoNull(a[..], 0, len) && 0 !in delims
    modifies a
    ensures var n := |Words(old(a[..len]), delims)|; |argv| == if argc < n then argc else n
    ensures forall k :: 0 <= k < |argv| ==> StringAt(a[..], argv[k], Words(old(a[..len]), delims)[k])
  {
    hide Words, StringAt;
    ghost var words := Words(a[..len], delims);
    argv := [];
    assert a[0..len] == a[..len];
    var p: nat := 0;
    var done := false;
    while !done
      invariant p <= len && a[len] == 0 && NoNull(a[..], p, len)
      invariant |argv| <= |words| && |argv| <= argc
      invariant !done ==> words[|argv|..] == Words(a[p..len], delims)
      invariant Found(a[..], argv, words, p, len)
      invariant done ==> |argv| == |words| || |argv| == argc
      decreases |words| - |argv|, !done
    {
      ghost var was := a[..];
      ghost var q := p;
      assert a[p..len] == was[p..len];
      var token;
      token, p := NextToken(a, p, len, delims);
      KeepFound(was, a[..], argv, words, q, p, len);
      if |argv| < argc && token.Some? {
        assert words[|argv| + 1..] == words[|argv|..][1..];
        argv := argv + [token.value];
      } else {
        done := true;
      }
    }
  }

  lemma KeepFound(mem: seq<byte>, mem2: seq<byte>, argv: seq<nat>, words: seq<seq<byte>>, q: nat, p: nat, len: nat)
    requires |argv| <= |words| && Found(mem, argv, words, q, len) && q <= p <= len < |mem| == |mem2|
    requires forall i :: 0 <= i < q || p <= i < |mem| ==> mem2[i] == mem[i]
    ensures Found(mem2, argv, words, p, len)
  {
    forall k | 0 <= k < |argv| ensures StringAt(mem2, argv[k], words[k]) {
      var s, w := argv[k], words[k];
      assert StringAt(mem, s, w);
      assert q == len ==> mem2 == mem;
      assert mem2[s..s + |w|] == mem[s..s + |w|];
    }
  }
}
