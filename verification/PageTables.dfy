/** One address space as words of memory, and the flat map it stands for
    (userprog/pagedir.c). */
module PageTables {
  import opened Options
  import opened PageAddress

  /** The words of physical memory, by kernel virtual address. */
  type Memory = bv32 -> bv32

  // Wrapped words, as keys of maps.
  datatype Index = Index(word: bv32)
  datatype Page = Page(word: bv32)

  datatype Mapping = Mapping(frame: bv32, writable: bool)

  /** What a page directory means: its page tables by directory index, and the mapping of
      every mapped user page. */
  datatype Space = Space(tables: map<Index, bv32>, pages: map<Page, Mapping>)

  function Write(mem: Memory, a: bv32, v: bv32): Memory
  {
    (x: bv32) => if x == a then v else mem(x)
  }

  function FillPage(mem: Memory, p: bv32, v: bv32): Memory
  {
    (x: bv32) => if PageOf(x) == p then v else mem(x)
  }

  function CopyPage(mem: Memory, dst: bv32, src: bv32): Memory
  {
    (x: bv32) => if PageOf(x) == dst then mem(At(src, x)) else mem(x)
  }

  /** mem and mem2 differ at most in the pages of ps. */
  ghost predicate SameOutside(mem: Memory, mem2: Memory, ps: set<bv32>)
  {
    forall a: bv32 :: PageOf(a) !in ps ==> mem2(a) == mem(a)
  }

  ghost predicate EntryOk(e: bv32, pages: map<Page, Mapping>, u: bv32)
  {
    if Page(u) in pages then
      KernelPage(pages[Page(u)].frame) && Meaning(e) == PteCreateUser(pages[Page(u)].frame, pages[Page(u)].writable)
    else
      !Present(e)
  }

  ghost predicate TablesOk(pd: bv32, tables: map<Index, bv32>)
  {
    && KernelPage(pd)
    && (forall i :: Index(i) in tables ==> i < USER_ENTRIES && KernelPage(tables[Index(i)]) && tables[Index(i)] != pd)
    && (forall i, j :: Index(i) in tables && Index(j) in tables && tables[Index(i)] == tables[Index(j)] ==> i == j)
  }

  ghost predicate DirOk(mem: Memory, pd: bv32, tables: map<Index, bv32>)
    requires TablesOk(pd, tables)
  {
    forall i: bv32 :: i < USER_ENTRIES ==>
      mem(Slot(pd, i)) == if Index(i) in tables then PdeCreate(tables[Index(i)]) else 0
  }

  ghost predicate PagesOk(mem: Memory, s: Space)
  {
    && (forall u :: Page(u) in s.pages ==> UserPage(u) && Index(PdNo(u)) in s.tables)
    && (forall u: bv32 :: UserPage(u) && Index(PdNo(u)) in s.tables ==>
          EntryOk(mem(Slot(s.tables[Index(PdNo(u))], PtNo(u))), s.pages, u))
  }

  /** The words of mem under pd represent s. */
  ghost predicate Represents(mem: Memory, pd: bv32, s: Space)
  {
    TablesOk(pd, s.tables) && DirOk(mem, pd, s.tables) && PagesOk(mem, s)
  }

  ghost function TablePages(pd: bv32, s: Space): set<bv32>
  {
    {pd} + set i | i in s.tables :: s.tables[i]
  }

  ghost function Frames(s: Space): set<bv32>
  {
    set u | u in s.pages :: s.pages[u].frame
  }

  /** What the processor makes of an address: the byte it stands for, and whether user code may
      use it and write to it. */
  datatype Access = Access(address: bv32, user: bool, write: bool)

  /** The processor's own walk of the tables, by bits 0 to 2 of both entries. */
  function Translate(mem: Memory, pd: bv32, va: bv32): Option<Access>
  {
    var pde := mem(Slot(pd, PdNo(va)));
    if !Flagged(pde, 1) then None
    else
      var pte := mem(Slot(Target(pde), PtNo(va)));
      if !Flagged(pte, 1) then None
      else Some(Access(At(Target(pte), va), Flagged(pde, 4) && Flagged(pte, 4), Flagged(pde, 2) && Flagged(pte, 2)))
  }

  /** What a mapping grants: every page to user code, for writing where it is writable. */
  function Granted(m: Mapping, va: bv32): Access
  {
    Access(At(m.frame, va), true, m.writable)
  }

  /** The processor's two-level walk acts as the flat map, permissions included. */
  lemma TranslateIsFlat(mem: Memory, pd: bv32, s: Space, va: bv32)
    requires Represents(mem, pd, s) && va < PHYS_BASE
    ensures Translate(mem, pd, va) ==
            if Page(PageOf(va)) in s.pages then Some(Granted(s.pages[Page(PageOf(va))], va)) else None
  {
    hide Slot, PageOf, PgOfs, PtNo, PdNo, Meaning, PteCreateUser, PdeCreate, Present, Target, Mapped, At, Flagged;
    SplitBounds(va);
    SplitPage(va);
    var u := PageOf(va);
    var i := PdNo(va);
    if Index(i) in s.tables {
      PdeRoundTrip(s.tables[Index(i)]);
      PdeRights(s.tables[Index(i)]);
      var e := mem(Slot(s.tables[Index(i)], PtNo(va)));
      assert EntryOk(e, s.pages, u);
      if Page(u) in s.pages {
        var m := s.pages[Page(u)];
        PteRights(e, m.frame, m.writable);
        PteFrame(e, m.frame, m.writable);
      } else {
        PresentIsBit(e);
      }
    } else {
      NotPresentZero();
      PresentIsBit(0);
    }
  }

  lemma NotPresentZero()
    ensures !Present(0)
  {
  }

  /** Memory that keeps the table pages keeps what they represent. */
  lemma Kept(mem: Memory, mem2: Memory, ps: set<bv32>, pd: bv32, s: Space)
    requires Represents(mem, pd, s) && SameOutside(mem, mem2, ps) && ps !! TablePages(pd, s)
    ensures Represents(mem2, pd, s)
    ensures forall i: bv32 :: i < ENTRIES ==> mem2(Slot(pd, i)) == mem(Slot(pd, i))
  {
    hide Slot, PageOf, PgOfs, PtNo, PdNo, Meaning, PteCreateUser, PdeCreate, Present, Target, Mapped, At;
    forall i: bv32 | i < ENTRIES ensures mem2(Slot(pd, i)) == mem(Slot(pd, i)) {
      SlotPage(pd, i);
    }
    forall u: bv32 | UserPage(u) && Index(PdNo(u)) in s.tables
      ensures EntryOk(mem2(Slot(s.tables[Index(PdNo(u))], PtNo(u))), s.pages, u)
    {
      assert EntryOk(mem(Slot(s.tables[Index(PdNo(u))], PtNo(u))), s.pages, u);
      SplitBounds(u);
      SlotPage(s.tables[Index(PdNo(u))], PtNo(u));
      assert s.tables[Index(PdNo(u))] in TablePages(pd, s);
    }
  }

  /** The word holding user page u's entry. */
  function EntrySlot(s: Space, u: bv32): bv32
    requires Index(PdNo(u)) in s.tables
  {
    Slot(s.tables[Index(PdNo(u))], PtNo(u))
  }

  /** Two user pages never share an entry. */
  lemma EntrySlotInjective(pd: bv32, s: Space, u: bv32, v: bv32)
    requires TablesOk(pd, s.tables) && UserPage(u) && UserPage(v)
    requires Index(PdNo(u)) in s.tables && Index(PdNo(v)) in s.tables && EntrySlot(s, u) == EntrySlot(s, v)
    ensures u == v
  {
    hide Slot, PageOf, PtNo, PdNo, PgOfs;
    SplitBounds(u);
    SplitBounds(v);
    SlotPage(s.tables[Index(PdNo(u))], PtNo(u));
    SlotPage(s.tables[Index(PdNo(v))], PtNo(v));
    SlotInjective(s.tables[Index(PdNo(u))], PtNo(u), PtNo(v));
    SplitInjective(u, v);
  }

  /** Writing the entry of one user page changes the mapping of that page alone. */
  lemma WriteEntry(mem: Memory, pd: bv32, s: Space, u: bv32, e: bv32, pages: map<Page, Mapping>)
    requires Represents(mem, pd, s) && UserPage(u) && Index(PdNo(u)) in s.tables
    requires EntryOk(e, pages, u)
    requires forall v :: v != u ==> (Page(v) in pages <==> Page(v) in s.pages)
    requires forall v :: v != u && Page(v) in pages ==> pages[Page(v)] == s.pages[Page(v)]
    ensures Represents(Write(mem, EntrySlot(s, u), e), pd, Space(s.tables, pages))
    ensures SameOutside(mem, Write(mem, EntrySlot(s, u), e), {s.tables[Index(PdNo(u))]})
    ensures forall i: bv32 :: i < ENTRIES ==>
              Write(mem, EntrySlot(s, u), e)(Slot(pd, i)) == mem(Slot(pd, i))
  {
    hide Slot, PageOf, PtNo, PdNo, PgOfs, Meaning, PteCreateUser, PdeCreate, Present, Target, Mapped, At;
    var t := s.tables[Index(PdNo(u))];
    var a := EntrySlot(s, u);
    var mem2 := Write(mem, a, e);
    SplitBounds(u);
    SlotPage(t, PtNo(u));
    forall i: bv32 | i < ENTRIES ensures mem2(Slot(pd, i)) == mem(Slot(pd, i)) {
      SlotPage(pd, i);
    }
    forall v: bv32 | UserPage(v) && Index(PdNo(v)) in s.tables
      ensures EntryOk(mem2(Slot(s.tables[Index(PdNo(v))], PtNo(v))), pages, v)
    {
      assert EntryOk(mem(Slot(s.tables[Index(PdNo(v))], PtNo(v))), s.pages, v);
      if v != u && EntrySlot(s, v) == a { EntrySlotInjective(pd, s, v, u); }
    }
  }

  /** Hanging a zeroed page into an empty directory entry adds a table that maps nothing. */
  lemma AddTable(mem: Memory, pd: bv32, s: Space, i: bv32, pt: bv32)
    requires Represents(mem, pd, s) && i < USER_ENTRIES && Index(i) !in s.tables
    requires KernelPage(pt) && pt !in TablePages(pd, s)
    ensures var mem2 := Write(FillPage(mem, pt, 0), Slot(pd, i), PdeCreate(pt));
            && Represents(mem2, pd, Space(s.tables[Index(i) := pt], s.pages))
            && SameOutside(mem, mem2, {pd, pt})
            && forall j: bv32 :: USER_ENTRIES <= j < ENTRIES ==> mem2(Slot(pd, j)) == mem(Slot(pd, j))
  {
    hide Slot, PageOf, PtNo, PdNo, PgOfs, Meaning, PteCreateUser, PdeCreate, Present, Target, Mapped, At;
    var mem2 := Write(FillPage(mem, pt, 0), Slot(pd, i), PdeCreate(pt));
    var tables := s.tables[Index(i) := pt];
    TableAdded(pd, s, i, pt);
    SlotPage(pd, i);
    forall j: bv32 | j < ENTRIES && j != i ensures mem2(Slot(pd, j)) == mem(Slot(pd, j)) {
      SlotPage(pd, j);
      if Slot(pd, j) == Slot(pd, i) { SlotInjective(pd, i, j); }
    }
    forall u: bv32 | UserPage(u) && Index(PdNo(u)) in tables
      ensures EntryOk(mem2(Slot(tables[Index(PdNo(u))], PtNo(u))), s.pages, u)
    {
      SplitBounds(u);
      SlotPage(tables[Index(PdNo(u))], PtNo(u));
      if PdNo(u) == i { NotPresentZero(); }
      else { assert EntryOk(mem(Slot(s.tables[Index(PdNo(u))], PtNo(u))), s.pages, u); }
    }
  }

  lemma TableAdded(pd: bv32, s: Space, i: bv32, pt: bv32)
    requires TablesOk(pd, s.tables) && i < USER_ENTRIES && Index(i) !in s.tables
    requires KernelPage(pt) && pt !in TablePages(pd, s)
    ensures TablesOk(pd, s.tables[Index(i) := pt])
  {
    hide KernelPage;
    forall j | Index(j) in s.tables ensures s.tables[Index(j)] != pt {
      assert s.tables[Index(j)] in TablePages(pd, s);
    }
    assert pd in TablePages(pd, s);
  }

  /** A directory whose user entries are all zero maps nothing. */
  lemma EmptySpace(mem: Memory, pd: bv32)
    requires KernelPage(pd)
    requires forall i: bv32 :: i < USER_ENTRIES ==> mem(Slot(pd, i)) == 0
    ensures Represents(mem, pd, Space(map[], map[]))
  {
  }
}
