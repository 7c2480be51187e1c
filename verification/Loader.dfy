/** Loading the segments of an executable (load, validate_segment, load_segment and
    install_page in userprog/process.c). */
module Loader {
  import opened Bytes
  import opened Vaddr
  import InodeIO

  const WORD: nat := 0x1_0000_0000
  const INT_MAX: nat := 0x7fff_ffff

  /** A 32-bit unsigned field. */
  newtype u32 = x: int | 0 <= x < 0x1_0000_0000

  datatype Kind = Load | Ignored | Refused

  datatype Segment = Segment(kind: Kind, offset: u32, vaddr: u32, filesz: u32, memsz: u32, writable: bool)

  /** Addition and subtraction of 32-bit unsigned integers. */
  function Add(x: nat, y: nat): nat { (x + y) % WORD }
  function Sub(x: nat, y: nat): int { (x - y) % WORD }

  /** ROUND_UP (x, PGSIZE), in 32 bits. */
  function RoundUp(x: nat): nat { Add(x, PGSIZE - 1) / PGSIZE * PGSIZE }

  /** validate_segment, for a file of the given length. */
  predicate Validate(p: Segment, length: nat)
  {
    var offset, vaddr, filesz, memsz := p.offset as nat, p.vaddr as nat, p.filesz as nat, p.memsz as nat;
    && offset % PGSIZE == vaddr % PGSIZE
    && offset <= length
    && memsz >= filesz
    && memsz != 0
    && vaddr < PHYS_BASE
    && Add(vaddr, memsz) < PHYS_BASE
    && Add(vaddr, memsz) >= vaddr
    && vaddr >= PGSIZE
  }

  datatype Plan = Plan(ofs: nat, upage: nat, readBytes: nat, zeroBytes: nat)

  /** The arguments load computes for load_segment, in 32-bit arithmetic. */
  function PlanOf(p: Segment): Plan
  {
    var pageOffset := p.vaddr as nat % PGSIZE;
    var filePage := p.offset as nat - p.offset as nat % PGSIZE;
    var memPage := p.vaddr as nat - pageOffset;
    if p.filesz > 0 then
      var readBytes := Add(pageOffset, p.filesz as nat);
      Plan(filePage, memPage, readBytes, Sub(RoundUp(Add(pageOffset, p.memsz as nat)), readBytes))
    else
      Plan(filePage, memPage, 0, RoundUp(Add(pageOffset, p.memsz as nat)))
  }

  lemma NoWrap(x: nat)
    requires x < WORD
    ensures x % WORD == x
  {
  }

  lemma RoundUpIs(x: nat)
    requires x <= PHYS_BASE
    ensures RoundUp(x) % PGSIZE == 0 && x <= RoundUp(x) < x + PGSIZE
  {
    NoWrap(x + PGSIZE - 1);
  }

  lemma RoundUpWithin(x: nat)
    requires x <= PHYS_BASE
    ensures RoundUp(x) <= PHYS_BASE
  {
    RoundUpIs(x);
  }

  /** The unwrapped meaning of validate_segment: the segment, not empty and with no more file
      bytes than memory bytes, lies above page 0 and ends below PHYS_BASE. */
  lemma ValidateMeaning(p: Segment, length: nat)
    ensures Validate(p, length) <==>
            && p.offset as nat % PGSIZE == p.vaddr as nat % PGSIZE && p.offset as nat <= length
            && 0 < p.memsz && p.filesz <= p.memsz
            && PGSIZE <= p.vaddr as nat && p.vaddr as nat + p.memsz as nat < PHYS_BASE
  {
    var vaddr, memsz := p.vaddr as nat, p.memsz as nat;
    if vaddr + memsz < WORD { NoWrap(vaddr + memsz); }
    else { assert Add(vaddr, memsz) == vaddr + memsz - WORD; }
  }

  /** Nothing wraps in the arithmetic of load. */
  lemma PlanIs(p: Segment, length: nat)
    requires Validate(p, length)
    ensures var o := p.vaddr as nat % PGSIZE;
            var readBytes := if p.filesz == 0 then 0 else o + p.filesz as nat;
            && readBytes <= RoundUp(o + p.memsz as nat)
            && PlanOf(p) == Plan(p.offset as nat - o, p.vaddr as nat - o, readBytes,
                                 RoundUp(o + p.memsz as nat) - readBytes)
  {
    hide RoundUp;
    ValidateMeaning(p, length);
    var o := p.vaddr as nat % PGSIZE;
    NoWrap(o + p.memsz as nat);
    NoWrap(o + p.filesz as nat);
    RoundUpIs(o + p.memsz as nat);
    RoundUpWithin(o + p.memsz as nat);
    NoWrap(RoundUp(o + p.memsz as nat) - (if p.filesz == 0 then 0 else o + p.filesz as nat));
  }

  /** For every segment validate_segment accepts nothing wraps, load_segment's three
      assertions hold, every page lies in [PGSIZE, PHYS_BASE), and the pages cover the
      segment. */
  lemma PlanGood(p: Segment, length: nat)
    requires Validate(p, length) && length <= INT_MAX
    ensures var plan := PlanOf(p);
            var total := plan.readBytes + plan.zeroBytes;
            && total % PGSIZE == 0 && plan.upage % PGSIZE == 0 && plan.ofs % PGSIZE == 0
            && plan.ofs <= INT_MAX
            && PGSIZE <= plan.upage && plan.upage + total <= PHYS_BASE
            && plan.upage <= p.vaddr as nat && p.vaddr as nat + p.memsz as nat <= plan.upage + total
            && p.vaddr as nat - plan.upage == p.offset as nat - plan.ofs
            && plan.readBytes == (if p.filesz == 0 then 0 else p.vaddr as nat - plan.upage + p.filesz as nat)
  {
    hide RoundUp, PlanOf, Validate;
    PlanIs(p, length);
    ValidateMeaning(p, length);
    RoundUpIs(p.vaddr as nat % PGSIZE + p.memsz as nat);
    SpanFits(p.vaddr as nat, p.memsz as nat);
  }

  /** The last page of a segment that ends below PHYS_BASE does too. */
  lemma SpanFits(vaddr: nat, memsz: nat)
    requires vaddr + memsz < PHYS_BASE
    ensures vaddr - vaddr % PGSIZE + RoundUp(vaddr % PGSIZE + memsz) <= PHYS_BASE
  {
    RoundUpIs(vaddr % PGSIZE + memsz);
  }

  // ----- load_segment -----

  datatype Frame = Frame(data: seq<byte>, writable: bool)

  /** Byte i of what load_segment is to put at its first address and up. */
  function ByteOf(file: seq<byte>, plan: Plan, i: nat): byte
  {
    if i < plan.readBytes && plan.ofs + i < |file| then file[plan.ofs + i] else 0
  }

  function PageData(file: seq<byte>, plan: Plan, k: nat): seq<byte>
  {
    seq(PGSIZE, i requires 0 <= i < PGSIZE => ByteOf(file, plan, PGSIZE * k + i))
  }

  function PageAddr(plan: Plan, k: nat): nat
  {
    plan.upage + PGSIZE * k
  }

  function Pages(plan: Plan): nat
  {
    (plan.readBytes + plan.zeroBytes) / PGSIZE
  }

  /** after is before and the first n pages of the segment. */
  ghost predicate Extends(before: map<nat, Frame>, after: map<nat, Frame>, file: seq<byte>, plan: Plan,
                          writable: bool, n: nat)
  {
    && (forall u :: u in before ==> u in after && after[u] == before[u])
    && (forall k: nat :: k < n ==>
          && PageAddr(plan, k) !in before && PageAddr(plan, k) in after
          && after[PageAddr(plan, k)] == Frame(PageData(file, plan, k), writable))
    && (forall u :: u in after && u !in before ==> exists k: nat :: k < n && u == PageAddr(plan, k))
  }

  /** What the environment grants to page k of a segment: a frame, memory for page tables, and
      a bounce buffer for reading part of a sector. */
  datatype Env = Env(frame: nat -> bool, tables: nat -> bool, bounce: nat -> bool)

  /** Bytes of the file that go to page n. */
  function PageBytes(plan: Plan, n: nat): nat
  {
    if ToRead(plan, n) < PGSIZE then ToRead(plan, n) else PGSIZE
  }

  /** Page k can be had, read in full, and mapped where nothing is mapped yet.  Only a page
      whose last sector is read in part needs a bounce buffer. */
  ghost predicate Loadable(before: map<nat, Frame>, file: seq<byte>, plan: Plan, k: nat, env: Env)
  {
    && env.frame(k) && env.tables(k) && PageAddr(plan, k) !in before
    && (PageBytes(plan, k) > 0 ==>
          && plan.ofs + PGSIZE * k + PageBytes(plan, k) <= |file|
          && (env.bounce(k) || PageBytes(plan, k) % InodeIO.SECTOR == 0))
  }

  class UserMemory {
    var pages: map<nat, Frame>   // the mapped user pages
    var frames: nat              // frames taken from the user pool

    ghost predicate Valid()
      reads this
    {
      frames == |pages|
    }

    /** install_page; the page tables may lack memory. */
    method InstallPage(upage: nat, frame: Frame, memory: bool) returns (ok: bool)
      modifies this`pages
      ensures ok <==> upage !in old(pages) && memory
      ensures pages == if ok then old(pages)[upage := frame] else old(pages)
    {
      ok := upage !in pages && memory;
      if ok { pages := pages[upage := frame]; }
    }

    /** One turn of load_segment's loop, for page n: a frame, size bytes of the file from pos,
        zeros for the rest, and a mapping. */
    method LoadPage(file: seq<byte>, plan: Plan, writable: bool, n: nat, pos: nat, size: nat, upage: nat,
                    env: Env, ghost before: map<nat, Frame>) returns (ok: bool)
      requires Valid() && Extends(before, pages, file, plan, writable, n) && plan.ofs % PGSIZE == 0
      requires size == PageBytes(plan, n)
      requires pos == plan.ofs + plan.readBytes - ToRead(plan, n) && upage == PageAddr(plan, n)
      modifies this
      ensures Valid() && (ok <==> Loadable(before, file, plan, n, env))
      ensures Extends(before, pages, file, plan, writable, if ok then n + 1 else n)
    {
      hide Extends, Loadable, PageData, PageAddr, FileRead;
      LoadableIs(before, file, plan, n, env);
      if !env.frame(n) { return false; }
      frames := frames + 1;
      var got := FileRead(file, pos, size, env.bounce(n));
      if |got| != size {
        frames := frames - 1;
        return false;
      }
      var data := got + seq(PGSIZE - size, i => 0);
      PageRead(file, plan, n, env.bounce(n));
      PageFree(before, pages, file, plan, writable, n);
      if upage !in pages { ExtendsNext(before, pages, file, plan, writable, n); }
      ok := InstallPage(upage, Frame(data, writable), env.tables(n));
      if !ok { frames := frames - 1; }
    }

    /** All pages of the segment are loaded exactly when each can be; a failure keeps the
        pages before it, and no frame is lost. */
    method LoadSegment(file: seq<byte>, plan: Plan, writable: bool, env: Env)
      returns (ok: bool)
      requires Valid() && (plan.readBytes + plan.zeroBytes) % PGSIZE == 0
      requires plan.upage % PGSIZE == 0 && plan.ofs % PGSIZE == 0
      modifies this
      ensures Valid()
      ensures ok <==> forall k: nat :: k < Pages(plan) ==>
                        Loadable(old(pages), file, plan, k, env)
      ensures ok ==> Extends(old(pages), pages, file, plan, writable, Pages(plan))
      ensures !ok ==> exists n: nat :: n < Pages(plan) && Extends(old(pages), pages, file, plan, writable, n)
    {
      hide Extends, Loadable, Valid;
      ghost var before := pages;
      var readBytes, zeroBytes, upage, pos := plan.readBytes, plan.zeroBytes, plan.upage, plan.ofs;
      var n: nat := 0;   // pages done: the environment answers page by page
      ExtendsNone(pages, file, plan, writable);
      while readBytes > 0 || zeroBytes > 0
        invariant Valid() && zeroBytes >= 0 && n <= Pages(plan) && upage == PageAddr(plan, n)
        invariant readBytes + zeroBytes == PGSIZE * (Pages(plan) - n)
        invariant readBytes == ToRead(plan, n) && pos == plan.ofs + plan.readBytes - readBytes
        invariant forall k: nat :: k < n ==> Loadable(before, file, plan, k, env)
        invariant Extends(before, pages, file, plan, writable, n)
        decreases readBytes + zeroBytes
      {
        var pageRead := if readBytes < PGSIZE then readBytes else PGSIZE;
        var pageZero := PGSIZE - pageRead;
        ToReadNext(plan, n);
        ok := LoadPage(file, plan, writable, n, pos, pageRead, upage, env, before);
        if !ok { return; }
        pos := pos + pageRead;
        readBytes, zeroBytes, upage := readBytes - pageRead, zeroBytes - pageZero, upage + PGSIZE;
        n := n + 1;
      }
      ok := true;
    }
  }

  /** What was mapped stays as it was. */
  ghost predicate Grown(before: map<nat, Frame>, after: map<nat, Frame>)
  {
    forall u :: u in before ==> u in after && after[u] == before[u]
  }

  ghost predicate Done(pages: map<nat, Frame>, file: seq<byte>, p: Segment)
  {
    p.kind == Load ==> Holds(pages, file, p)
  }

  lemma GrownSelf(pages: map<nat, Frame>)
    ensures Grown(pages, pages)
  {
  }

  lemma DoneIgnored(pages: map<nat, Frame>, file: seq<byte>, p: Segment)
    requires p.kind == Ignored
    ensures Done(pages, file, p)
  {
  }

  lemma LoadedGrows(before: map<nat, Frame>, was: map<nat, Frame>, pages: map<nat, Frame>, file: seq<byte>,
                    plan: Plan, writable: bool)
    requires Grown(before, was)
    requires exists n: nat :: Extends(was, pages, file, plan, writable, n)
    ensures Grown(before, pages) && Grown(was, pages)
  {
  }

  lemma DoneKept(was: map<nat, Frame>, pages: map<nat, Frame>, file: seq<byte>, p: Segment)
    requires Grown(was, pages) && Done(was, file, p)
    ensures Done(pages, file, p)
  {
    if p.kind == Load {
      forall a: nat | p.vaddr as nat <= a < p.vaddr as nat + p.memsz as nat ensures HoldsAt(pages, file, p, a) {
        assert HoldsAt(was, file, p, a);
      }
    }
  }

  lemma LoadedDone(was: map<nat, Frame>, pages: map<nat, Frame>, file: seq<byte>, p: Segment,
                   env: Env)
    requires Validate(p, |file|) && |file| <= INT_MAX
    requires forall k: nat :: k < Pages(PlanOf(p)) ==> Loadable(was, file, PlanOf(p), k, env)
    requires Extends(was, pages, file, PlanOf(p), p.writable, Pages(PlanOf(p)))
    ensures Done(pages, file, p)
  {
    hide Validate, PlanOf, Extends, HoldsAt;
    PlanGood(p, |file|);
    FileLongEnough(was, file, PlanOf(p), env);
    forall a: nat | p.vaddr as nat <= a < p.vaddr as nat + p.memsz as nat ensures HoldsAt(pages, file, p, a) {
      SegmentLoaded(was, pages, file, p, a);
    }
  }

  lemma FileLongEnough(was: map<nat, Frame>, file: seq<byte>, plan: Plan, env: Env)
    requires forall k: nat :: k < Pages(plan) ==> Loadable(was, file, plan, k, env)
    ensures plan.readBytes > 0 && (plan.readBytes + plan.zeroBytes) % PGSIZE == 0 ==>
              plan.ofs + plan.readBytes <= |file|
  {
    if plan.readBytes > 0 && (plan.readBytes + plan.zeroBytes) % PGSIZE == 0 {
      var k := (plan.readBytes - 1) / PGSIZE;
      assert Loadable(was, file, plan, k, env);
    }
  }

  /** Bytes of the file still to be read when n pages are done. */
  function ToRead(plan: Plan, n: nat): nat
  {
    if PGSIZE * n <= plan.readBytes then plan.readBytes - PGSIZE * n else 0
  }

  lemma ToReadNext(plan: Plan, n: nat)
    ensures ToRead(plan, n + 1) == if ToRead(plan, n) < PGSIZE then 0 else ToRead(plan, n) - PGSIZE
    ensures ToRead(plan, n) > 0 ==> plan.readBytes - ToRead(plan, n) == PGSIZE * n
    ensures PageAddr(plan, n + 1) == PageAddr(plan, n) + PGSIZE
  {
  }

  /** file_read from a position, by inode_read_at: up to size bytes of what there is, and
      whole sectors alone without a bounce buffer. */
  function FileRead(file: seq<byte>, pos: nat, size: nat, bounceOk: bool): seq<byte>
  {
    InodeIO.Slice(file, pos, InodeIO.Moved(InodeIO.Inode(0, |file|, 0), size, pos, bounceOk))
  }

  lemma FullRead(file: seq<byte>, pos: nat, size: nat, bounceOk: bool)
    requires pos % InodeIO.SECTOR == 0 || size == 0
    ensures |FileRead(file, pos, size, bounceOk)| == size <==>
            (size > 0 ==> pos + size <= |file| && (bounceOk || size % InodeIO.SECTOR == 0))
    ensures |FileRead(file, pos, size, bounceOk)| == size ==>
              forall i :: 0 <= i < size ==> pos + i < |file| && FileRead(file, pos, size, bounceOk)[i] == file[pos + i]
  {
  }

  /** Where the bytes of page n lie in the file. */
  lemma PageOffsets(plan: Plan, n: nat, i: nat)
    requires i < PGSIZE
    ensures i < PageBytes(plan, n) <==> PGSIZE * n + i < plan.readBytes
    ensures i < PageBytes(plan, n) ==> plan.readBytes - ToRead(plan, n) == PGSIZE * n
  {
  }

  lemma PageRead(file: seq<byte>, plan: Plan, n: nat, bounceOk: bool)
    requires plan.ofs % PGSIZE == 0
    requires var size := PageBytes(plan, n);
             |FileRead(file, plan.ofs + plan.readBytes - ToRead(plan, n), size, bounceOk)| == size
    ensures var size := PageBytes(plan, n);
            FileRead(file, plan.ofs + plan.readBytes - ToRead(plan, n), size, bounceOk) + seq(PGSIZE - size, i => 0)
            == PageData(file, plan, n)
  {
    PageStart(plan, n);
    hide FileRead, ToRead, PageBytes;
    var size := PageBytes(plan, n);
    var pos := plan.ofs + plan.readBytes - ToRead(plan, n);
    var got := FileRead(file, pos, size, bounceOk);
    FullRead(file, pos, size, bounceOk);
    var data := got + seq(PGSIZE - size, i => 0);
    forall i | 0 <= i < PGSIZE ensures data[i] == ByteOf(file, plan, PGSIZE * n + i) {
      PageOffsets(plan, n, i);
      if i < size { assert data[i] == got[i] == file[pos + i]; }
    }
    assert data == PageData(file, plan, n);
  }

  /** Every page that is read starts at a page boundary of the file. */
  lemma PageStart(plan: Plan, n: nat)
    requires plan.ofs % PGSIZE == 0
    ensures PageBytes(plan, n) == 0 || (plan.ofs + plan.readBytes - ToRead(plan, n)) % InodeIO.SECTOR == 0
    ensures PageBytes(plan, n) <= PGSIZE && ToRead(plan, n) <= plan.readBytes
  {
  }

  lemma LoadableIs(before: map<nat, Frame>, file: seq<byte>, plan: Plan, n: nat, env: Env)
    requires plan.ofs % PGSIZE == 0
    ensures var size := PageBytes(plan, n);
            Loadable(before, file, plan, n, env) <==>
            && env.frame(n) && env.tables(n) && PageAddr(plan, n) !in before
            && |FileRead(file, plan.ofs + plan.readBytes - ToRead(plan, n), size, env.bounce(n))| == size
  {
    hide FileRead;
    FullRead(file, plan.ofs + plan.readBytes - ToRead(plan, n), PageBytes(plan, n), env.bounce(n));
  }

  lemma ExtendsNone(pages: map<nat, Frame>, file: seq<byte>, plan: Plan, writable: bool)
    ensures Extends(pages, pages, file, plan, writable, 0)
  {
  }

  /** The next page is mapped already only if it was from the start. */
  lemma PageFree(before: map<nat, Frame>, after: map<nat, Frame>, file: seq<byte>, plan: Plan, writable: bool, n: nat)
    requires Extends(before, after, file, plan, writable, n)
    ensures PageAddr(plan, n) in after <==> PageAddr(plan, n) in before
  {
  }

  lemma ExtendsNext(before: map<nat, Frame>, after: map<nat, Frame>, file: seq<byte>, plan: Plan, writable: bool, n: nat)
    requires Extends(before, after, file, plan, writable, n) && PageAddr(plan, n) !in after
    ensures Extends(before, after[PageAddr(plan, n) := Frame(PageData(file, plan, n), writable)],
                    file, plan, writable, n + 1)
  {
    hide PageData;
    var next := after[PageAddr(plan, n) := Frame(PageData(file, plan, n), writable)];
    forall k: nat | k < n + 1
      ensures && PageAddr(plan, k) !in before && PageAddr(plan, k) in next
              && next[PageAddr(plan, k)] == Frame(PageData(file, plan, k), writable)
    {
      assert k < n ==> PageAddr(plan, k) != PageAddr(plan, n);
    }
    forall u | u in next && u !in before ensures exists k: nat :: k < n + 1 && u == PageAddr(plan, k) {
      if u in after {
        var k: nat :| k < n && u == PageAddr(plan, k);
        assert k < n + 1;
      } else {
        assert u == PageAddr(plan, n);
      }
    }
  }

  // ----- what a loaded segment is -----

  /** Memory holds segment p of the file: its file bytes, then zeros. */
  ghost predicate Holds(pages: map<nat, Frame>, file: seq<byte>, p: Segment)
  {
    forall a: nat :: p.vaddr as nat <= a < p.vaddr as nat + p.memsz as nat ==> HoldsAt(pages, file, p, a)
  }

  ghost predicate HoldsAt(pages: map<nat, Frame>, file: seq<byte>, p: Segment, a: nat)
    requires p.vaddr as nat <= a
  {
    var u, i := a - a % PGSIZE, p.offset as nat + (a - p.vaddr as nat);
    && u in pages && pages[u].writable == p.writable && |pages[u].data| == PGSIZE
    && if a < p.vaddr as nat + p.filesz as nat then i < |file| && pages[u].data[a % PGSIZE] == file[i]
       else pages[u].data[a % PGSIZE] == 0
  }

  lemma PageOfByte(plan: Plan, a: nat)
    requires plan.upage % PGSIZE == 0 && (plan.readBytes + plan.zeroBytes) % PGSIZE == 0
    requires plan.upage <= a < plan.upage + plan.readBytes + plan.zeroBytes
    ensures var d := a - plan.upage;
            && a % PGSIZE == d % PGSIZE && a - a % PGSIZE == PageAddr(plan, d / PGSIZE)
            && d / PGSIZE < Pages(plan) && PGSIZE * (d / PGSIZE) + d % PGSIZE == d
  {
  }

  /** The page arithmetic of load and the loop of load_segment together put the segment where
      its header says. */
  lemma SegmentLoaded(before: map<nat, Frame>, pages: map<nat, Frame>, file: seq<byte>, p: Segment, a: nat)
    requires Validate(p, |file|) && |file| <= INT_MAX
    requires Extends(before, pages, file, PlanOf(p), p.writable, Pages(PlanOf(p)))
    requires PlanOf(p).readBytes > 0 ==> PlanOf(p).ofs + PlanOf(p).readBytes <= |file|
    requires p.vaddr as nat <= a < p.vaddr as nat + p.memsz as nat
    ensures HoldsAt(pages, file, p, a)
  {
    hide Validate, PlanOf;
    PlanGood(p, |file|);
    var plan := PlanOf(p);
    var d := a - plan.upage;
    var k := d / PGSIZE;
    PageOfByte(plan, a);
    hide Pages, PageAddr;
    assert pages[PageAddr(plan, k)].data[d % PGSIZE] == ByteOf(file, plan, d);
  }
}
