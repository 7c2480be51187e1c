/** Loading a whole executable: its header, its program headers and its segments (load in
    userprog/process.c). */
module ElfFiles {
  import opened Bytes
  import opened Loader
  import InodeIO

  const EHDR: nat := 52   // sizeof (struct Elf32_Ehdr)
  const PHDR: nat := 32   // sizeof (struct Elf32_Phdr)

  /** What the environment grants: bounce buffers for the headers, and what each segment's
      pages need. */
  datatype LoadEnv = LoadEnv(header: bool, headers: nat -> bool, segments: nat -> Env)

  /** load's checks of the executable header. */
  predicate HeaderOk(b: seq<byte>)
    requires |b| == EHDR
  {
    && b[..7] == [0x7f, 69, 76, 70, 1, 1, 1]
    && Read2(b, 16) == 2 && Read2(b, 18) == 3 && Read4(b, 20) == 1
    && Read2(b, 42) == PHDR && Read2(b, 44) <= 1024
  }

  /** A program header. */
  function SegmentOf(b: seq<byte>): Segment
    requires |b| == PHDR
  {
    var kind := match Read4(b, 0)
                case 1 => Kind.Load
                case 2 => Kind.Refused   // PT_DYNAMIC
                case 3 => Kind.Refused   // PT_INTERP
                case 5 => Kind.Refused   // PT_SHLIB
                case _ => Kind.Ignored;
    Segment(kind, Read4(b, 4) as u32, Read4(b, 8) as u32, Read4(b, 16) as u32, Read4(b, 20) as u32,
            Read4(b, 24) / 2 % 2 == 1)
  }

  // ----- the layout of the two structures

  /** What the fields of struct Elf32_Ehdr hold. */
  datatype Ehdr = Ehdr(ident: seq<byte>, kind: nat, machine: nat, version: nat, entry: nat, phoff: nat, shoff: nat,
                       flags: nat, ehsize: nat, phentsize: nat, phnum: nat, shentsize: nat, shnum: nat, shstrndx: nat)

  /** What those of struct Elf32_Phdr hold, with p_flags by its bits. */
  datatype Phdr = Phdr(kind: nat, offset: nat, vaddr: nat, paddr: nat, filesz: nat, memsz: nat,
                       x: bool, w: bool, r: bool, align: nat)

  predicate Half(x: nat) { x < 0x1_0000 }
  predicate Word(x: nat) { x < 0x1_0000_0000 }

  predicate EhdrOk(h: Ehdr)
  {
    && |h.ident| == 16 && Half(h.kind) && Half(h.machine) && Word(h.version) && Word(h.entry) && Word(h.phoff)
    && Word(h.shoff) && Word(h.flags) && Half(h.ehsize) && Half(h.phentsize) && Half(h.phnum) && Half(h.shentsize)
    && Half(h.shnum) && Half(h.shstrndx)
  }

  predicate PhdrOk(p: Phdr)
  {
    && Word(p.kind) && Word(p.offset) && Word(p.vaddr) && Word(p.paddr) && Word(p.filesz) && Word(p.memsz)
    && Word(p.align)
  }

  /** The executable header as bytes, field after field. */
  function EhdrBytes(h: Ehdr): seq<byte>
    requires EhdrOk(h)
  {
    h.ident + Word2(h.kind) + Word2(h.machine) + Word4(h.version) + Word4(h.entry) + Word4(h.phoff) + Word4(h.shoff)
    + Word4(h.flags) + Word2(h.ehsize) + Word2(h.phentsize) + Word2(h.phnum) + Word2(h.shentsize) + Word2(h.shnum)
    + Word2(h.shstrndx)
  }

  function PhdrBytes(p: Phdr): seq<byte>
    requires PhdrOk(p)
  {
    Word4(p.kind) + Word4(p.offset) + Word4(p.vaddr) + Word4(p.paddr) + Word4(p.filesz) + Word4(p.memsz)
    + Word4((if p.x then 1 else 0) + (if p.w then 2 else 0) + (if p.r then 4 else 0)) + Word4(p.align)
  }

  /** load accepts a header by the fields that its check names, and takes the number and the place
      of the program headers from theirs. */
  lemma EhdrRead(h: Ehdr, rest: seq<byte>)
    requires EhdrOk(h)
    ensures |EhdrBytes(h)| == EHDR
    ensures HeaderOk(EhdrBytes(h)) <==>
            && h.ident[..7] == [0x7f, 'E' as byte, 'L' as byte, 'F' as byte, 1, 1, 1]
            && h.kind == 2 && h.machine == 3 && h.version == 1 && h.phentsize == 32 && h.phnum <= 1024
    ensures Phnum(EhdrBytes(h) + rest) == h.phnum
    ensures forall i: nat :: HeaderOfs(EhdrBytes(h) + rest, i) ==
              (if h.phoff < 0x8000_0000 then h.phoff else h.phoff - 0x1_0000_0000) + 32 * i
  {
    hide Word2, Word4, Read2, Read4;
    var b := EhdrBytes(h);
    var file := b + rest;
    assert b[..7] == h.ident[..7];
    Word2RoundTrip(b, 16, h.kind);
    Word2RoundTrip(b, 18, h.machine);
    Word4RoundTrip(b, 20, h.version);
    Word4RoundTrip(file, 28, h.phoff);
    Word2RoundTrip(b, 42, h.phentsize);
    Word2RoundTrip(b, 44, h.phnum);
    Word2RoundTrip(file, 44, h.phnum);
  }

  /** And each program header says what its fields do: only PT_LOAD is loaded, PT_DYNAMIC,
      PT_INTERP and PT_SHLIB are refused, and the pages are writable exactly with PF_W. */
  lemma PhdrRead(p: Phdr)
    requires PhdrOk(p)
    ensures |PhdrBytes(p)| == PHDR
    ensures SegmentOf(PhdrBytes(p)) ==
            Segment(if p.kind == 1 then Kind.Load else if p.kind in {2, 3, 5} then Kind.Refused else Kind.Ignored,
                    p.offset as u32, p.vaddr as u32, p.filesz as u32, p.memsz as u32, p.w)
  {
    hide Word4, Read4;
    var b := PhdrBytes(p);
    var flags := (if p.x then 1 else 0) + (if p.w then 2 else 0) + (if p.r then 4 else 0);
    Word4RoundTrip(b, 0, p.kind);
    Word4RoundTrip(b, 4, p.offset);
    Word4RoundTrip(b, 8, p.vaddr);
    Word4RoundTrip(b, 16, p.filesz);
    Word4RoundTrip(b, 20, p.memsz);
    Word4RoundTrip(b, 24, flags);
  }

  function Phnum(file: seq<byte>): nat
    requires |file| >= EHDR
  {
    Read2(file, 44)
  }

  /** Where program header i is sought: e_phoff converted to a signed off_t, and on from there. */
  function HeaderOfs(file: seq<byte>, i: nat): int
    requires |file| >= EHDR
  {
    var phoff := Read4(file, 28);
    (if phoff >= 0x8000_0000 then phoff - 0x1_0000_0000 else phoff) + PHDR * i
  }

  /** Program header i lies in the file and there is a bounce buffer to read it. */
  predicate HeaderRead(file: seq<byte>, env: LoadEnv, i: nat)
    requires |file| >= EHDR
  {
    0 <= HeaderOfs(file, i) && HeaderOfs(file, i) + PHDR <= |file| && env.headers(i)
  }

  function HeaderAt(file: seq<byte>, i: nat): Segment
    requires |file| >= EHDR && 0 <= HeaderOfs(file, i) && HeaderOfs(file, i) + PHDR <= |file|
  {
    SegmentOf(file[HeaderOfs(file, i)..HeaderOfs(file, i) + PHDR])
  }

  /** The program headers from i on can be read and loaded, one after another, into pages. */
  ghost predicate Loads(file: seq<byte>, env: LoadEnv, i: nat, pages: map<nat, Frame>)
    requires |file| >= EHDR
    decreases Phnum(file) - i
  {
    i >= Phnum(file) ||
    (HeaderRead(file, env, i) &&
     var p := HeaderAt(file, i);
     match p.kind
     case Refused => false
     case Ignored => Loads(file, env, i + 1, pages)
     case Load =>
       && Validate(p, |file|)
       && (forall k: nat :: k < Pages(PlanOf(p)) ==> Loadable(pages, file, PlanOf(p), k, env.segments(i)))
       && exists next :: Extends(pages, next, file, PlanOf(p), p.writable, Pages(PlanOf(p))) &&
                         Loads(file, env, i + 1, next))
  }

  /** A read of less than a sector. */
  lemma ShortRead(file: seq<byte>, pos: nat, size: nat, bounceOk: bool)
    requires 0 < size < InodeIO.SECTOR
    ensures |FileRead(file, pos, size, bounceOk)| == size <==> bounceOk && pos + size <= |file|
    ensures bounceOk && pos + size <= |file| ==> FileRead(file, pos, size, bounceOk) == file[pos..pos + size]
  {
  }

  /** The segment's pages are determined. */
  lemma ExtendsUnique(before: map<nat, Frame>, a: map<nat, Frame>, b: map<nat, Frame>, file: seq<byte>, plan: Plan,
                      writable: bool, n: nat)
    requires Extends(before, a, file, plan, writable, n) && Extends(before, b, file, plan, writable, n)
    ensures a == b
  {
    hide PageData, PageAddr;
    assert forall u :: u in a <==> u in b;
  }

  /** What one program header does to the rest of the load. */
  lemma LoadsAfter(file: seq<byte>, env: LoadEnv, i: nat, pages: map<nat, Frame>, next: map<nat, Frame>)
    requires |file| >= EHDR && i < Phnum(file) && HeaderRead(file, env, i) && HeaderAt(file, i).kind == Kind.Load
    requires var p := HeaderAt(file, i);
             && Validate(p, |file|)
             && (forall k: nat :: k < Pages(PlanOf(p)) ==> Loadable(pages, file, PlanOf(p), k, env.segments(i)))
             && Extends(pages, next, file, PlanOf(p), p.writable, Pages(PlanOf(p)))
    ensures Loads(file, env, i, pages) <==> Loads(file, env, i + 1, next)
  {
    hide Extends, Loadable, Validate, PlanOf, Pages, HeaderOfs, SegmentOf;
    var p := HeaderAt(file, i);
    forall other | Extends(pages, other, file, PlanOf(p), p.writable, Pages(PlanOf(p))) ensures other == next {
      ExtendsUnique(pages, other, next, file, PlanOf(p), p.writable, Pages(PlanOf(p)));
    }
  }

  /** load, up to the stack.  It succeeds exactly when the header is right and the program
      headers can be read, are acceptable and can be loaded one after another; then all their
      segments are in memory together, beside what was mapped before. */
  method LoadExecutable(m: UserMemory, file: seq<byte>, env: LoadEnv) returns (ok: bool)
    requires m.Valid() && |file| <= INT_MAX
    modifies m
    ensures m.Valid() && Grown(old(m.pages), m.pages)
    ensures ok <==> env.header && |file| >= EHDR && HeaderOk(file[..EHDR]) && Loads(file, env, 0, old(m.pages))
    ensures ok ==> forall i: nat :: i < Phnum(file) ==> HeaderRead(file, env, i) && Done(m.pages, file, HeaderAt(file, i))
  {
    GrownSelf(m.pages);
    var ehdr := FileRead(file, 0, EHDR, env.header);
    ShortRead(file, 0, EHDR, env.header);
    if |ehdr| != EHDR || !HeaderOk(ehdr) { return false; }
    ok := LoadHeaders(m, file, env, Read2(ehdr, 44), Read4(ehdr, 28));
  }

  /** The loop over the program headers. */
  method LoadHeaders(m: UserMemory, file: seq<byte>, env: LoadEnv, phnum: nat, phoff: nat) returns (ok: bool)
    requires m.Valid() && EHDR <= |file| <= INT_MAX && phnum == Phnum(file) && phoff == Read4(file, 28)
    modifies m
    ensures m.Valid() && Grown(old(m.pages), m.pages)
    ensures ok <==> Loads(file, env, 0, old(m.pages))
    ensures ok ==> forall i: nat :: i < phnum ==> HeaderRead(file, env, i) && Done(m.pages, file, HeaderAt(file, i))
  {
    hide Grown, Done, Extends, Loadable, Validate, PlanOf, Pages, SegmentOf, FileRead, UserMemory.Valid;
    ghost var before := m.pages;
    GrownSelf(m.pages);
    var fileOfs: int := if phoff >= 0x8000_0000 then phoff - 0x1_0000_0000 else phoff;
    for i := 0 to phnum
      invariant m.Valid() && Grown(before, m.pages) && fileOfs == HeaderOfs(file, i)
      invariant Loads(file, env, 0, before) <==> Loads(file, env, i, m.pages)
      invariant forall j: nat :: j < i ==> HeaderRead(file, env, j) && Done(m.pages, file, HeaderAt(file, j))
    {
      if fileOfs < 0 || fileOfs > |file| { return false; }
      var phdr := FileRead(file, fileOfs, PHDR, env.headers(i));
      ShortRead(file, fileOfs, PHDR, env.headers(i));
      if |phdr| != PHDR { return false; }
      var p := SegmentOf(phdr);
      ghost var was := m.pages;
      fileOfs := fileOfs + PHDR;
      match p.kind
      case Refused => return false;
      case Ignored => DoneIgnored(m.pages, file, p);
      case Load =>
        if !Validate(p, |file|) { return false; }
        PlanGood(p, |file|);
        ok := m.LoadSegment(file, PlanOf(p), p.writable, env.segments(i));
        LoadedGrows(before, was, m.pages, file, PlanOf(p), p.writable);
        if !ok { return; }
        LoadsAfter(file, env, i, was, m.pages);
        LoadedDone(was, m.pages, file, p, env.segments(i));
        forall j: nat | j < i ensures Done(m.pages, file, HeaderAt(file, j)) {
          DoneKept(was, m.pages, file, HeaderAt(file, j));
        }
    }
    ok := true;
  }
}
