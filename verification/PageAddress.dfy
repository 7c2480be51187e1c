/** The fields of a 32-bit virtual address and of a page directory or page table entry
    (threads/vaddr.h and threads/pte.h), on the machine's own 32-bit words. */
module PageAddress {
  const PHYS_BASE: bv32 := 0xc000_0000
  const PTE_ADDR: bv32 := 0xffff_f000
  const PTE_P: bv32 := 1
  const PTE_W: bv32 := 2
  const PTE_U: bv32 := 4
  const PTE_A: bv32 := 0x20
  const PTE_D: bv32 := 0x40
  const ENTRIES: bv32 := 1024      // entries of a directory or of a table
  const USER_ENTRIES: bv32 := 768  // pd_no (PHYS_BASE)

  function PgOfs(va: bv32): bv32 { va & 0xfff }
  /** pg_round_down */
  function PageOf(va: bv32): bv32 { va & 0xffff_f000 }
  function PdNo(va: bv32): bv32 { va >> 22 }
  function PtNo(va: bv32): bv32 { (va & 0x003f_f000) >> 12 }

  function Vtop(va: bv32): bv32
    requires va >= PHYS_BASE
  {
    va - PHYS_BASE
  }

  function Plus(p: bv32, distance: bv32): bv32 { p + distance }

  /** The byte of page p at the offset of va. */
  function At(p: bv32, va: bv32): bv32 { Plus(p, PgOfs(va)) }

  predicate UserPage(u: bv32) { u < PHYS_BASE && PgOfs(u) == 0 }
  predicate KernelPage(p: bv32) { p >= PHYS_BASE && PgOfs(p) == 0 }

  function PdeCreate(pt: bv32): bv32
    requires KernelPage(pt)
  {
    Vtop(pt) | PTE_U | PTE_P | PTE_W
  }

  function PteCreateKernel(page: bv32, writable: bool): bv32
    requires KernelPage(page)
  {
    Vtop(page) | PTE_P | (if writable then PTE_W else 0)
  }

  function PteCreateUser(page: bv32, writable: bool): bv32
    requires KernelPage(page)
  {
    PteCreateKernel(page, writable) | PTE_U
  }

  /** The page an entry points to, as the processor reads it: pde_get_pt and pte_get_page
      where ptov's assertion holds. */
  function Target(e: bv32): bv32 { (e & PTE_ADDR) + PHYS_BASE }

  /** ptov's assertion on the address of an entry. */
  predicate Mapped(e: bv32) { e & PTE_ADDR < PHYS_BASE }


  predicate Present(e: bv32) { e & PTE_P != 0 }

  /** The address of entry i of the table at page t: &t[i]. */
  function Slot(t: bv32, i: bv32): bv32 { Plus(t, i << 2) }

  /** The user page with directory index i and table index j. */
  function Join(i: bv32, j: bv32): bv32 { (i << 22) | (j << 12) }

  lemma SlotPage(t: bv32, i: bv32)
    requires PgOfs(t) == 0 && i < ENTRIES
    ensures PageOf(Slot(t, i)) == t
  {
  }

  lemma SlotOffset(t: bv32, i: bv32)
    requires PgOfs(t) == 0 && i < ENTRIES
    ensures PgOfs(Slot(t, i)) == i << 2
  {
  }

  lemma SlotInjective(t: bv32, i: bv32, j: bv32)
    requires i < ENTRIES && j < ENTRIES && Slot(t, i) == Slot(t, j)
    ensures i == j
  {
  }

  /** The two indices and the offset determine an address. */
  lemma SplitInjective(u: bv32, v: bv32)
    requires PdNo(u) == PdNo(v) && PtNo(u) == PtNo(v) && PgOfs(u) == PgOfs(v)
    ensures u == v
  {
  }

  lemma SplitBounds(va: bv32)
    ensures PtNo(va) < ENTRIES && PdNo(va) < ENTRIES
    ensures va < PHYS_BASE <==> PdNo(va) < USER_ENTRIES
  {
  }

  lemma SplitPage(va: bv32)
    ensures PdNo(PageOf(va)) == PdNo(va) && PtNo(PageOf(va)) == PtNo(va)
    ensures va < PHYS_BASE ==> UserPage(PageOf(va))
  {
    assert (va & 0xffff_f000) >> 22 == va >> 22;
    assert ((va & 0xffff_f000) & 0x003f_f000) >> 12 == (va & 0x003f_f000) >> 12;
    assert (va & 0xffff_f000) & 0xfff == 0;
    assert va < 0xc000_0000 ==> va & 0xffff_f000 < 0xc000_0000;
  }

  lemma JoinSplit(i: bv32, j: bv32)
    requires i < USER_ENTRIES && j < ENTRIES
    ensures PdNo(Join(i, j)) == i && PtNo(Join(i, j)) == j && UserPage(Join(i, j))
  {
  }

  /** A directory entry is nonzero, present, and leads back to its table. */
  lemma PdeRoundTrip(pt: bv32)
    requires KernelPage(pt)
    ensures PdeCreate(pt) != 0 && Present(PdeCreate(pt))
    ensures Mapped(PdeCreate(pt)) && Target(PdeCreate(pt)) == pt
  {
  }

  function With(e: bv32, flag: bv32): bv32 { e | flag }
  function Without(e: bv32, flag: bv32): bv32 { e & !flag }

  predicate Flagged(e: bv32, flag: bv32) { e & flag != 0 }

  lemma SetIsFlagged(e: bv32, flag: bv32)
    requires flag == 0x20 || flag == 0x40
    ensures Flagged(With(e, flag), flag)
  {
  }

  lemma ClearedIsNot(e: bv32, flag: bv32)
    ensures !Flagged(Without(e, flag), flag)
  {
  }

  /** What a page table entry says apart from the accessed, dirty and spare bits. */
  function Meaning(e: bv32): bv32 { e & 0xffff_f007 }

  lemma PteMeaning(k: bv32, writable: bool)
    requires KernelPage(k)
    ensures Meaning(PteCreateUser(k, writable)) == PteCreateUser(k, writable)
  {
  }

  /** What the processor reads in a directory entry: present, for user code too, writable. */
  lemma PdeRights(pt: bv32)
    requires KernelPage(pt)
    ensures Flagged(PdeCreate(pt), 1) && Flagged(PdeCreate(pt), 2) && Flagged(PdeCreate(pt), 4)
  {
  }

  /** In the entry of a page: present, for user code too, and writable where it was made so. */
  lemma PteRights(e: bv32, k: bv32, writable: bool)
    requires KernelPage(k) && Meaning(e) == PteCreateUser(k, writable)
    ensures Flagged(e, 1) && Flagged(e, 4) && (Flagged(e, 2) <==> writable)
  {
    MeaningPresent(e);
    MeaningWritable(e);
    MeaningUser(e);
    NewRights(k, writable);
    hide Meaning, PteCreateUser, PteCreateKernel, PgOfs, Flagged;
  }

  lemma MeaningPresent(e: bv32)
    ensures Flagged(e, 1) <==> Flagged(Meaning(e), 1)
  {
    assert e & 1 == (e & 0xffff_f007) & 1;
  }

  lemma MeaningWritable(e: bv32)
    ensures Flagged(e, 2) <==> Flagged(Meaning(e), 2)
  {
    assert e & 2 == (e & 0xffff_f007) & 2;
  }

  lemma MeaningUser(e: bv32)
    ensures Flagged(e, 4) <==> Flagged(Meaning(e), 4)
  {
    assert e & 4 == (e & 0xffff_f007) & 4;
  }

  lemma NewRights(k: bv32, writable: bool)
    requires KernelPage(k)
    ensures var e := PteCreateUser(k, writable); Flagged(e, 1) && Flagged(e, 4) && (Flagged(e, 2) <==> writable)
  {
  }

  lemma PresentIsBit(e: bv32)
    ensures Present(e) <==> Flagged(e, 1)
  {
  }

  /** An entry with the meaning of one for frame k is present. */
  lemma PtePresent(e: bv32, k: bv32, writable: bool)
    requires KernelPage(k) && Meaning(e) == PteCreateUser(k, writable)
    ensures Present(e)
  {
    assert e & 1 == (e & 0xffff_f007) & 1;
  }

  lemma PteAddress(k: bv32, writable: bool)
    requires KernelPage(k)
    ensures PteCreateUser(k, writable) & PTE_ADDR == k - PHYS_BASE
  {
  }

  lemma AddressByMeaning(e: bv32)
    ensures e & PTE_ADDR == Meaning(e) & PTE_ADDR
  {
  }

  /** And leads to k. */
  lemma PteFrame(e: bv32, k: bv32, writable: bool)
    requires KernelPage(k) && Meaning(e) == PteCreateUser(k, writable)
    ensures Target(e) == k
  {
    hide Meaning, PteCreateUser, PteCreateKernel, PgOfs;
    AddressByMeaning(e);
    PteAddress(k, writable);
  }

  lemma PteMapped(e: bv32, k: bv32, writable: bool)
    requires KernelPage(k) && Meaning(e) == PteCreateUser(k, writable)
    ensures Mapped(e)
  {
    hide Meaning, PteCreateUser, PteCreateKernel, PgOfs;
    AddressByMeaning(e);
    PteAddress(k, writable);
  }

  lemma ClearPresent(e: bv32)
    ensures !Present(Without(e, PTE_P))
  {
  }

  // A flag outside the meaning, set or cleared, leaves the meaning; so does presence follow.
  lemma SetFlag(e: bv32, flag: bv32)
    requires Meaning(flag) == 0
    ensures Meaning(With(e, flag)) == Meaning(e)
  {
  }

  lemma ClearFlag(e: bv32, flag: bv32)
    requires Meaning(flag) == 0
    ensures Meaning(Without(e, flag)) == Meaning(e)
  {
  }

  lemma PresentByMeaning(e: bv32, f: bv32)
    requires Meaning(e) == Meaning(f)
    ensures Present(e) <==> Present(f)
  {
    assert e & 1 == (e & 0xffff_f007) & 1;
    assert f & 1 == (f & 0xffff_f007) & 1;
  }
}
