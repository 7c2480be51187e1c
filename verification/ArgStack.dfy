/** Building a process's argument stack (push_args in userprog/process.c). */
module ArgStack {
  import opened Bytes
  import opened Tokens
  import opened Vaddr

  const SPACE: byte := ' ' as byte

  /** The words as consecutive null-terminated strings. */
  function Strings(words: seq<seq<byte>>): seq<byte>
  {
    if words == [] then [] else words[0] + [0] + Strings(words[1..])
  }

  /** The addresses of those strings when they end at top. */
  function Addresses(words: seq<seq<byte>>, top: nat): (r: seq<nat>)
    requires |Strings(words)| <= top < 0x1_0000_0000
    ensures |r| == |words| && forall k :: 0 <= k < |r| ==> r[k] < 0x1_0000_0000
  {
    if words == [] then [] else [top - |Strings(words)|] + Addresses(words[1..], top)
  }

  function Pointers(addresses: seq<nat>): (r: seq<byte>)
    requires forall k :: 0 <= k < |addresses| ==> addresses[k] < 0x1_0000_0000
    ensures |r| == 4 * |addresses|
  {
    if addresses == [] then [] else Word4(addresses[0]) + Pointers(addresses[1..])
  }

  /** The bytes push_args needs. */
  function Size(words: seq<seq<byte>>): nat
  {
    |Strings(words)| + 5 + 4 * |words| + 12
  }

  lemma {:induction false} PointerAt(addresses: seq<nat>, k: nat)
    requires forall k :: 0 <= k < |addresses| ==> addresses[k] < 0x1_0000_0000
    requires k < |addresses|
    ensures Pointers(addresses)[4 * k..4 * k + 4] == Word4(addresses[k])
  {
    if k > 0 {
      PointerAt(addresses[1..], k - 1);
      assert Pointers(addresses)[4 * k..4 * k + 4] ==
             Pointers(addresses[1..])[4 * (k - 1)..4 * (k - 1) + 4];
    }
  }

  /** String k lies at its address. */
  lemma {:induction false} StringThere(words: seq<seq<byte>>, top: nat, k: nat)
    requires |Strings(words)| <= top < 0x1_0000_0000 && k < |words| && 0 !in words[k]
    ensures StringAt(Strings(words), Addresses(words, top)[k] - (top - |Strings(words)|), words[k])
  {
    hide StringAt;
    if k == 0 {
      FirstString(words);
    } else {
      StringThere(words[1..], top, k - 1);
      var d := |words[0]| + 1;
      assert Strings(words)[d..] == Strings(words[1..]);
      var q := Addresses(words[1..], top)[k - 1] - (top - |Strings(words[1..])|);
      StringShifted(Strings(words[1..]), Strings(words), d, q, words[k]);
    }
  }

  lemma FirstString(words: seq<seq<byte>>)
    requires words != [] && 0 !in words[0]
    ensures StringAt(Strings(words), 0, words[0])
  {
    var w := words[0];
    assert Strings(words) == w + ([0] + Strings(words[1..]));
  }

  /** What push_args leaves from the final stack pointer up to top. */
  function Image(words: seq<seq<byte>>, top: nat): (r: seq<byte>)
    requires Size(words) <= top < 0x1_0000_0000
    ensures |r| == Size(words)
  {
    var pointers := Pointers(Addresses(words, top)) + [0] + [0, 0, 0, 0] + Strings(words);
    Word4(0) + Word4(|words|) + Word4(top - |pointers|) + pointers
  }

  lemma ImageParts(words: seq<seq<byte>>, top: nat)
    requires Size(words) <= top < 0x1_0000_0000
    ensures var m := Image(words, top);
            var n := |words|;
            && m[0..4] == Word4(0) && m[4..8] == Word4(n) && m[8..12] == Word4(top - |m| + 12)
            && m[12..12 + 4 * n] == Pointers(Addresses(words, top))
            && m[12 + 4 * n..12 + 4 * n + 4] == Word4(0)
            && m[12 + 4 * n + 5..] == Strings(words)
  {
    hide Strings, Addresses;
    var a := Pointers(Addresses(words, top));
    var b := a + [0] + [0, 0, 0, 0] + Strings(words);
    var m := Image(words, top);
    assert m == Word4(0) + Word4(|words|) + Word4(top - |b|) + b;
    assert b[..|a|] == a && b[|a|..|a| + 4] == [0, 0, 0, 0] && b[|a| + 5..] == Strings(words);
    assert m[12..] == b;
    assert m[12..12 + |a|] == m[12..][..|a|];
    assert m[12 + |a|..12 + |a| + 4] == m[12..][|a|..|a| + 4];
    assert m[12 + |a| + 5..] == m[12..][|a| + 5..];
  }

  lemma SliceOfSlice(m: seq<byte>, i: nat, j: nat, p: nat, q: nat)
    requires i <= j <= |m| && p <= q <= j - i
    ensures m[i..j][p..q] == m[i + p..i + q]
  {
    assert forall k :: 0 <= k < q - p ==> m[i..j][p..q][k] == m[i..j][p + k] == m[i + p + k];
  }

  lemma WordAt(words: seq<seq<byte>>, top: nat, k: nat)
    requires Size(words) <= top < 0x1_0000_0000 && k < |words| && 0 !in words[k]
    ensures var m := Image(words, top);
            StringAt(m, Read4(m, 12 + 4 * k) - (top - |m|), words[k])
  {
    hide Strings, Addresses, StringAt, Image, Pointers, Read4, Word4;
    var m := Image(words, top);
    var n := |words|;
    ImageParts(words, top);
    var a := Addresses(words, top);
    PointerAt(a, k);
    SliceOfSlice(m, 12, 12 + 4 * n, 4 * k, 4 * k + 4);
    Word4RoundTrip(m, 12 + 4 * k, a[k]);
    StringThere(words, top, k);
    StringShifted(Strings(words), m, 12 + 4 * n + 5, a[k] - (top - |Strings(words)|), words[k]);
  }

  /** A program that reads the memory m from esp upwards finds a zero return address, the
      number of words, and an argument vector whose entries point to exactly the words, in
      order, with a null pointer after the last. */
  ghost predicate Decodes(m: seq<byte>, esp: nat, words: seq<seq<byte>>)
  {
    && |m| >= Size(words) && Read4(m, 0) == 0 && Read4(m, 4) == |words|
    && var argv := Read4(m, 8) - esp;
    && argv == 12
    && (forall k :: 0 <= k < |words| ==> StringAt(m, Read4(m, argv + 4 * k) - esp, words[k]))
    && Read4(m, argv + 4 * |words|) == 0
  }

  /** push_args leaves such a memory. */
  lemma StackDecodes(words: seq<seq<byte>>, top: nat)
    requires Size(words) <= top < 0x1_0000_0000
    requires forall k :: 0 <= k < |words| ==> 0 !in words[k]
    ensures Decodes(Image(words, top), top - Size(words), words)
  {
    hide Strings, Addresses, StringAt, Image, Pointers, Read4, Word4;
    var m := Image(words, top);
    var n := |words|;
    ImageParts(words, top);
    Word4RoundTrip(m, 0, 0);
    Word4RoundTrip(m, 4, n);
    Word4RoundTrip(m, 8, top - |m| + 12);
    Word4RoundTrip(m, 12 + 4 * n, 0);
    forall k | 0 <= k < n ensures StringAt(m, Read4(m, 12 + 4 * k) - (top - |m|), words[k]) {
      WordAt(words, top, k);
    }
  }

  lemma StringClean(m: seq<byte>, p: int, w: seq<byte>)
    requires StringAt(m, p, w)
    ensures 0 !in w
  {
  }

  lemma StringShifted(s: seq<byte>, m: seq<byte>, d: nat, p: int, w: seq<byte>)
    requires d <= |m| && m[d..] == s && StringAt(s, p, w)
    ensures StringAt(m, d + p, w)
  {
    assert m[d + p..d + p + |w|] == s[p..p + |w|];
  }

  /** The stack of a new process: one page below PHYS_BASE. */
  class Stack {
    const page: array<byte>
    var esp: int

    ghost predicate Valid()
      reads this
    {
      page.Length == PGSIZE && PHYS_BASE - PGSIZE <= esp <= PHYS_BASE
    }

    /** The bytes from the stack pointer up. */
    ghost function Contents(): seq<byte>
      requires Valid()
      reads this, page
    {
      page[esp - (PHYS_BASE - PGSIZE)..]
    }

    /** setup_stack's page. */
    constructor ()
      ensures Valid() && fresh(page) && Contents() == []
    {
      page := new byte[PGSIZE];
      esp := PHYS_BASE;
    }

    /** Moves esp down and stores data there, unless that would leave the page: then nothing
        is stored and the process exits. */
    method Push(data: seq<byte>) returns (ok: bool)
      requires Valid()
      modifies this`esp, page
      ensures ok <==> |data| + |old(Contents())| <= PGSIZE
      ensures ok ==> Valid() && Contents() == data + old(Contents()) && esp == old(esp) - |data|
      ensures !ok ==> page[..] == old(page[..])
    {
      ghost var above := Contents();
      esp := esp - |data|;
      if esp < PHYS_BASE - PGSIZE { return false; }
      var d := esp - (PHYS_BASE - PGSIZE);
      forall k | 0 <= k < |data| { page[d + k] := data[k]; }
      assert page[d..d + |data|] == data && page[d + |data|..] == above;
      assert page[d..] == page[d..d + |data|] + page[d + |data|..];
      ok := true;
    }
  }

  /** memcpy of a string found by its pointer, null byte included. */
  method CopyString(a: array<byte>, p: nat, ghost w: seq<byte>) returns (data: seq<byte>)
    requires StringAt(a[..], p, w)
    ensures data == w + [0]
  {
    var n: nat := 0;
    assert forall i :: 0 <= i < |w| ==> a[p + i] == a[..][p..p + |w|][i] == w[i];
    while a[p + n] != 0
      invariant n <= |w|
      decreases |w| - n
    {
      n := n + 1;
    }
    data := a[p..p + n + 1];
  }

  lemma StringsStep(words: seq<seq<byte>>, k: nat)
    requires k < |words|
    ensures Strings(words[k..]) == words[k] + [0] + Strings(words[k + 1..])
    ensures |Strings(words[k..])| <= PHYS_BASE ==>
              Addresses(words[k..], PHYS_BASE) ==
              [PHYS_BASE - |Strings(words[k..])|] + Addresses(words[k + 1..], PHYS_BASE)
  {
    assert words[k..][1..] == words[k + 1..];
  }

  lemma {:induction false} StringsFit(words: seq<seq<byte>>, k: nat)
    requires k <= |words|
    ensures |Strings(words[k..])| <= |Strings(words)|
  {
    if k == 0 {
      assert words[0..] == words;
    } else {
      StringsStep(words, k - 1);
      StringsFit(words, k - 1);
    }
  }

  /** The first pushing loop: the strings, from the last to the first. */
  method PushStrings(stack: Stack, line: array<byte>, argv: seq<nat>, ghost words: seq<seq<byte>>)
    returns (ok: bool, addresses: seq<nat>)
    requires stack.Valid() && stack.Contents() == [] && line != stack.page
    requires |argv| == |words| && forall k :: 0 <= k < |argv| ==> StringAt(line[..], argv[k], words[k])
    modifies stack`esp, stack.page
    ensures ok <==> |Strings(words)| <= PGSIZE
    ensures ok ==> stack.Valid() && stack.Contents() == Strings(words) &&
                   addresses == Addresses(words, PHYS_BASE)
  {
    hide StringAt;
    var count := |argv|;
    addresses := [];
    while count > 0
      invariant 0 <= count <= |argv| && stack.Valid()
      invariant stack.Contents() == Strings(words[count..])
      invariant addresses == Addresses(words[count..], PHYS_BASE)
    {
      count := count - 1;
      var data := CopyString(line, argv[count], words[count]);
      StringsStep(words, count);
      StringsFit(words, count);
      ok := stack.Push(data);
      if !ok { return; }
      addresses := [stack.esp] + addresses;
    }
    assert words[0..] == words;
    ok := true;
  }

  lemma PointersStep(addresses: seq<nat>, k: nat)
    requires forall k :: 0 <= k < |addresses| ==> addresses[k] < 0x1_0000_0000
    requires k < |addresses|
    ensures Pointers(addresses[k..]) == Word4(addresses[k]) + Pointers(addresses[k + 1..])
  {
    assert addresses[k..][1..] == addresses[k + 1..];
  }

  /** The second pushing loop: the addresses, from the last to the first. */
  method PushPointers(stack: Stack, addresses: seq<nat>) returns (ok: bool)
    requires stack.Valid()
    requires forall k :: 0 <= k < |addresses| ==> addresses[k] < 0x1_0000_0000
    modifies stack`esp, stack.page
    ensures ok <==> 4 * |addresses| + |old(stack.Contents())| <= PGSIZE
    ensures ok ==> stack.Valid() && stack.Contents() == Pointers(addresses) + old(stack.Contents())
  {
    hide Word4, Pointers;
    ghost var above := stack.Contents();
    var count := |addresses|;
    PointersNone();
    while count > 0
      invariant 0 <= count <= |addresses| && stack.Valid()
      invariant stack.Contents() == Pointers(addresses[count..]) + above
    {
      count := count - 1;
      PointersStep(addresses, count);
      WordSize(addresses[count]);
      ok := stack.Push(Word4(addresses[count]));
      if !ok { return; }
      Append3(Word4(addresses[count]), Pointers(addresses[count + 1..]), above);
    }
    assert addresses[0..] == addresses;
    ok := true;
  }

  lemma PointersNone()
    ensures Pointers([]) == []
  {
  }

  lemma Append3(a: seq<byte>, b: seq<byte>, c: seq<byte>)
    ensures a + (b + c) == a + b + c
  {
  }

  lemma WordSize(x: nat)
    requires x < 0x1_0000_0000
    ensures |Word4(x)| == 4
  {
  }

  /** The argument vector's address, the count and the return address. */
  method PushFrame(stack: Stack, argc: nat) returns (ok: bool)
    requires stack.Valid() && argc < PGSIZE
    modifies stack`esp, stack.page
    ensures ok <==> 12 + |old(stack.Contents())| <= PGSIZE
    ensures ok ==> stack.Valid() && stack.Contents() ==
                     Word4(0) + Word4(argc) + Word4(old(stack.esp)) + old(stack.Contents())
  {
    hide Word4;
    ghost var above := stack.Contents();
    var argv := stack.esp;
    WordSize(argv);
    WordSize(argc);
    WordSize(0);
    ok := stack.Push(Word4(argv));
    if !ok { return; }
    ok := stack.Push(Word4(argc));
    if !ok { return; }
    ok := stack.Push(Word4(0));
    if !ok { return; }
    assert Word4(0) + (Word4(argc) + (Word4(argv) + above)) ==
           Word4(0) + Word4(argc) + Word4(argv) + above;
  }

  /** Pushing what the words ask for, from the strings down to the return address. */
  method PushAll(stack: Stack, line: array<byte>, argv: seq<nat>, ghost words: seq<seq<byte>>) returns (ok: bool)
    requires stack.Valid() && stack.Contents() == [] && line != stack.page
    requires |argv| == |words| && forall k :: 0 <= k < |argv| ==> StringAt(line[..], argv[k], words[k])
    modifies stack`esp, stack.page
    ensures ok <==> Size(words) <= PGSIZE
    ensures ok ==> stack.Valid() && stack.Contents() == Image(words, PHYS_BASE)
  {
    hide StringAt, Strings, Addresses, Pointers, Word4;
    var addresses;
    ok, addresses := PushStrings(stack, line, argv, words);
    if !ok { return; }
    ok := stack.Push([0, 0, 0, 0]);
    if !ok { return; }
    ok := stack.Push([0]);
    if !ok { return; }
    ok := PushPointers(stack, addresses);
    if !ok { return; }
    ghost var pointers := Pointers(addresses) + [0] + [0, 0, 0, 0] + Strings(words);
    Append3(Pointers(addresses), [0], [0, 0, 0, 0] + Strings(words));
    Append3(Pointers(addresses) + [0], [0, 0, 0, 0], Strings(words));
    assert stack.Contents() == pointers;
    ok := PushFrame(stack, |argv|);
    assert ok ==> Image(words, PHYS_BASE) ==
                  Word4(0) + Word4(|words|) + Word4(PHYS_BASE - |pointers|) + pointers;
  }

  /** How push_args ends: it returns, having pushed everything or without memory for its copy
      of the line, or the process exits. */
  datatype Outcome = Pushed | NoMemory | Exited

  /** push_args on a stack that is still empty; the command line, in a page of its own, ends at
      len.  The process exits exactly when the arguments do not fit one page.  The final stack
      pointer is a multiple of four exactly when the strings and one more byte are: the four
      bytes pushed for alignment never align anything. */
  method PushArgs(stack: Stack, line: array<byte>, len: nat, copyOk: bool) returns (r: Outcome)
    requires stack.Valid() && stack.Contents() == []
    requires len < line.Length == PGSIZE && line[len] == 0 && NoNull(line[..], 0, len)
    requires line != stack.page
    modifies stack`esp, stack.page, line
    ensures var words := Words(old(line[..len]), [SPACE]);
            && (r == NoMemory <==> !copyOk)
            && (r == Pushed <==> copyOk && Size(words) <= PGSIZE)
            && (r == Pushed ==>
                  && stack.Valid() && Decodes(stack.Contents(), stack.esp, words)
                  && stack.esp == PHYS_BASE - Size(words)
                  && (stack.esp % 4 == 0 <==> (|Strings(words)| + 1) % 4 == 0))
    ensures r == NoMemory ==> stack.esp == old(stack.esp) && stack.page[..] == old(stack.page[..])
  {
    hide Words, Decodes, Image, Read4, StringAt, Strings;
    if !copyOk { return NoMemory; }
    var copy := new byte[PGSIZE];
    var n := StrlCpy(copy, line, len);
    assert NoNull(copy[..], 0, n) by { SameNoNull(line[..], copy[..], n); }
    ghost var words := Words(line[..len], [SPACE]);
    var argc := CountTokens(line, len, [SPACE]);
    var argv := Tokenize(copy, n, [SPACE], argc);
    forall k | 0 <= k < |words| ensures 0 !in words[k] { StringClean(copy[..], argv[k], words[k]); }
    var ok := PushAll(stack, copy, argv, words);
    if ok { StackDecodes(words, PHYS_BASE); }
    r := if ok then Pushed else Exited;
  }

  lemma SameNoNull(a: seq<byte>, b: seq<byte>, n: nat)
    requires n <= |a| && n <= |b| && a[..n] == b[..n] && NoNull(a, 0, n)
    ensures NoNull(b, 0, n)
  {
    assert forall i :: 0 <= i < n ==> a[i] == a[..n][i] == b[..n][i] == b[i];
  }

  /** The command line "a" is enough to leave the stack pointer misaligned. */
  method Misaligned() returns (stack: Stack, r: Outcome)
    ensures r == Pushed && stack.Valid() && Decodes(stack.Contents(), stack.esp, [[97]])
    ensures stack.esp % 4 == 1
  {
    hide Decodes, Words, Size, Strings;
    stack := new Stack();
    var line := new byte[PGSIZE](_ => 0);
    line[0] := 97;
    OneLetter(line[..1]);
    assert NoNull(line[..], 0, 1);
    r := PushArgs(stack, line, 1, true);
  }

  lemma OneLetter(t: seq<byte>)
    requires |t| == 1 && t[0] == 97
    ensures Words(t, [SPACE]) == [[97]] && Size([[97]]) == 23
  {
    assert Words(t, [SPACE]) == [[97]] by {
      hide Words;
      WordsStep(t, 0, 1, [SPACE]);
      WordsNone([], [SPACE]);
      assert t[0..1] == [97] && t[1..] == [];
    }
    var words: seq<seq<byte>> := [[97]];
    assert Strings(words[1..]) == [];
    assert |Strings(words)| == 2;
  }
}
