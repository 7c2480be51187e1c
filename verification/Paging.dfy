/** The page directories of all processes in one physical memory, the pages they take from
    the page allocator, and the processor's translation cache (userprog/pagedir.c). */
module Paging {
  import opened Options
  import opened PageAddress
  import opened PageTables
  import opened PageFreeing

  /** The kernel's entries of pd are those of the directory made at boot. */
  ghost predicate KernelShared(mem: Memory, pd: bv32, boot: bv32)
  {
    forall i: bv32 :: USER_ENTRIES <= i < ENTRIES ==> mem(Slot(pd, i)) == mem(Slot(boot, i))
  }

  /** Two address spaces share no table page, and neither maps a table page of the other. */
  ghost predicate Apart(p: bv32, s: Space, q: bv32, t: Space)
  {
    TablePages(p, s) !! TablePages(q, t) && Frames(s) !! TablePages(q, t) && Frames(t) !! TablePages(p, s)
  }

  ghost predicate SpaceOk(mem: Memory, used: set<bv32>, boot: bv32, pd: bv32, s: Space)
  {
    && Represents(mem, pd, s)
    && TablePages(pd, s) <= used && Frames(s) <= used && Frames(s) !! TablePages(pd, s)
    && KernelShared(mem, pd, boot)
  }

  ghost predicate SpacesOk(mem: Memory, used: set<bv32>, boot: bv32, spaces: map<Page, Space>)
  {
    && Page(boot) in spaces && spaces[Page(boot)] == Space(map[], map[])
    && (forall p :: p in spaces ==> SpaceOk(mem, used, boot, p.word, spaces[p]))
    && (forall p, q :: p in spaces && q in spaces && p != q ==>
          Apart(p.word, spaces[p], q.word, spaces[q]))
  }

  /** Every cached translation is one the active directory still gives. */
  ghost predicate CacheOk(cache: map<Page, Access>, s: Space)
  {
    forall u :: u in cache ==> u in s.pages && cache[u] == Access(s.pages[u].frame, true, s.pages[u].writable)
  }

  /** One directory changed, in its own table pages alone: all directories stay good. */
  lemma Changed(mem: Memory, mem2: Memory, used: set<bv32>, used2: set<bv32>, boot: bv32,
                spaces: map<Page, Space>, pd: bv32, s: Space)
    requires SpacesOk(mem, used, boot, spaces) && used <= used2 && pd != boot
    requires SameOutside(mem, mem2, TablePages(pd, s))
    requires Represents(mem2, pd, s)
    requires TablePages(pd, s) <= used2 && Frames(s) <= used2 && Frames(s) !! TablePages(pd, s)
    requires forall i: bv32 :: USER_ENTRIES <= i < ENTRIES ==> mem2(Slot(pd, i)) == mem(Slot(boot, i))
    requires forall q :: q in spaces && q != Page(pd) ==> Apart(pd, s, q.word, spaces[q])
    ensures SpacesOk(mem2, used2, boot, spaces[Page(pd) := s])
  {
    hide Represents, Slot, Frames;
    var spaces2 := spaces[Page(pd) := s];
    Kept(mem, mem2, TablePages(pd, s), boot, spaces[Page(boot)]);
    forall q | q in spaces2 ensures SpaceOk(mem2, used2, boot, q.word, spaces2[q]) {
      if q != Page(pd) {
        Kept(mem, mem2, TablePages(pd, s), q.word, spaces[q]);
      }
    }
  }

  /** A copy of the boot directory in a new page is an empty address space. */
  lemma CreateStep(mem: Memory, used: set<bv32>, boot: bv32, spaces: map<Page, Space>, pd: bv32)
    requires SpacesOk(mem, used, boot, spaces) && KernelPage(pd) && pd !in used
    ensures SpacesOk(CopyPage(mem, pd, boot), used + {pd}, boot,
                     spaces[Page(pd) := Space(map[], map[])])
  {
    hide At, PageOf, PgOfs, PdeCreate, Meaning, Present, PteCreateUser, PdNo, PtNo, UserPage, Slot;
    var mem2 := CopyPage(mem, pd, boot);
    var s := Space(map[], map[]);
    assert boot in TablePages(boot, spaces[Page(boot)]);
    forall i: bv32 | i < ENTRIES ensures mem2(Slot(pd, i)) == mem(Slot(boot, i)) {
      SlotPage(pd, i);
      CopySlot(pd, boot, i);
    }
    EmptySpace(mem2, pd);
    assert TablePages(pd, s) == {pd} && Frames(s) == {};
    Changed(mem, mem2, used, used + {pd}, boot, spaces, pd, s);
  }

  lemma CopySlot(dst: bv32, src: bv32, i: bv32)
    requires PgOfs(dst) == 0 && i < ENTRIES
    ensures At(src, Slot(dst, i)) == Slot(src, i)
  {
    hide PgOfs, Plus;
    SlotOffset(dst, i);
  }

  /** lookup_page's new page table. */
  lemma NewTableStep(mem: Memory, used: set<bv32>, boot: bv32, spaces: map<Page, Space>, pd: bv32,
                  i: bv32, pt: bv32)
    requires SpacesOk(mem, used, boot, spaces) && Page(pd) in spaces && pd != boot
    requires i < USER_ENTRIES && Index(i) !in spaces[Page(pd)].tables
    requires KernelPage(pt) && pt !in used
    ensures var s := spaces[Page(pd)];
            SpacesOk(Write(FillPage(mem, pt, 0), Slot(pd, i), PdeCreate(pt)), used + {pt}, boot,
                     spaces[Page(pd) := Space(s.tables[Index(i) := pt], s.pages)])
  {
    hide KernelPage, PdeCreate, Meaning, Present, PteCreateUser, PdNo, PtNo, UserPage, Slot, Represents;
    var s := spaces[Page(pd)];
    var s2 := Space(s.tables[Index(i) := pt], s.pages);
    AddTable(mem, pd, s, i, pt);
    TablePagesGrow(pd, s, s2, Index(i), pt);
    Changed(mem, Write(FillPage(mem, pt, 0), Slot(pd, i), PdeCreate(pt)), used, used + {pt}, boot,
            spaces, pd, s2);
  }

  lemma TablePagesGrow(pd: bv32, s: Space, s2: Space, i: Index, pt: bv32)
    requires i !in s.tables && s2.tables == s.tables[i := pt]
    ensures TablePages(pd, s2) == TablePages(pd, s) + {pt}
  {
    forall p ensures p in TablePages(pd, s2) <==> p in TablePages(pd, s) + {pt} {
      if p in TablePages(pd, s) && p != pd {
        var k :| k in s.tables && s.tables[k] == p;
        assert k in s2.tables && s2.tables[k] == p;
      }
      assert i in s2.tables && s2.tables[i] == pt;
    }
  }

  /** A page may be mapped where it is in use and holds no table. */
  ghost predicate Mappable(used: set<bv32>, spaces: map<Page, Space>, k: bv32)
  {
    k in used && forall q :: q in spaces ==> k !in TablePages(q.word, spaces[q])
  }

  /** One entry rewritten, with the frames it may add. */
  lemma EntryStep(mem: Memory, used: set<bv32>, boot: bv32, spaces: map<Page, Space>, pd: bv32,
                  u: bv32, e: bv32, pages: map<Page, Mapping>)
    requires SpacesOk(mem, used, boot, spaces) && Page(pd) in spaces && pd != boot
    requires UserPage(u) && Index(PdNo(u)) in spaces[Page(pd)].tables && EntryOk(e, pages, u)
    requires forall v :: v != Page(u) ==> (v in pages <==> v in spaces[Page(pd)].pages)
    requires forall v :: v != Page(u) && v in pages ==> pages[v] == spaces[Page(pd)].pages[v]
    requires Page(u) in pages ==> Mappable(used, spaces, pages[Page(u)].frame)
    ensures var s := spaces[Page(pd)];
            SpacesOk(Write(mem, EntrySlot(s, u), e), used, boot,
                     spaces[Page(pd) := Space(s.tables, pages)])
  {
    hide KernelPage, PdeCreate, Meaning, Present, PteCreateUser, PdNo, PtNo, UserPage, Slot, Represents;
    var s := spaces[Page(pd)];
    var s2 := Space(s.tables, pages);
    WriteEntry(mem, pd, s, u, e, pages);
    assert s.tables[Index(PdNo(u))] in TablePages(pd, s);
    assert TablePages(pd, s2) == TablePages(pd, s);
    FramesOf(s, s2, u);
    Changed(mem, Write(mem, EntrySlot(s, u), e), used, used, boot, spaces, pd, s2);
  }

  lemma FramesOf(s: Space, s2: Space, u: bv32)
    requires forall v :: v != Page(u) && v in s2.pages ==> v in s.pages && s2.pages[v] == s.pages[v]
    ensures Frames(s2) <= Frames(s) + (if Page(u) in s2.pages then {s2.pages[Page(u)].frame} else {})
  {
  }

  class Machine {
    const boot: bv32                   // init_page_dir
    var mem: Memory
    var used: set<bv32>                // pages the page allocator has handed out
    var active: bv32                   // the directory in CR3
    var cache: map<Page, Access>       // the translation lookaside buffer
    ghost var spaces: map<Page, Space> // what each directory means

    ghost predicate Valid()
      reads this
    {
      && SpacesOk(mem, used, boot, spaces)
      && Page(active) in spaces && CacheOk(cache, spaces[Page(active)])
    }

    /** The machine after boot: one directory, without user entries. */
    constructor (mem: Memory, boot: bv32)
      requires KernelPage(boot)
      requires forall i: bv32 :: i < USER_ENTRIES ==> mem(Slot(boot, i)) == 0
      ensures Valid() && spaces == map[Page(boot) := Space(map[], map[])]
    {
      this.mem, this.boot, active := mem, boot, boot;
      used, cache, spaces := {boot}, map[], map[Page(boot) := Space(map[], map[])];
      EmptySpace(mem, boot);
    }

    /** A page the allocator may hand out next, or none. */
    ghost predicate Offers(page: Option<bv32>)
      reads this
    {
      page.Some? ==> KernelPage(page.value) && page.value !in used
    }

    /** The new directory maps nothing; the others keep their meaning. */
    method PagedirCreate(page: Option<bv32>) returns (pd: Option<bv32>)
      requires Valid() && Offers(page)
      modifies this
      ensures Valid() && pd == page && active == old(active) && cache == old(cache)
      ensures page.None? ==> spaces == old(spaces) && used == old(used) && mem == old(mem)
      ensures page.Some? ==> spaces == old(spaces)[Page(page.value) := Space(map[], map[])] &&
                             used == old(used) + {page.value}
    {
      hide SpacesOk, CopyPage, KernelPage;
      pd := page;
      if page.Some? {
        CreateStep(mem, used, boot, spaces, page.value);
        NewDirectory(mem, used, boot, spaces, page.value);
        mem := CopyPage(mem, page.value, boot);
        used := used + {page.value};
        spaces := spaces[Page(page.value) := Space(map[], map[])];
      }
    }

    /** lookup_page without create: the word of va's entry, if there is a table for it. */
    method Lookup(pd: bv32, va: bv32) returns (pte: Option<bv32>)
      requires Valid() && Page(pd) in spaces && va < PHYS_BASE
      ensures pte.Some? <==> Index(PdNo(va)) in spaces[Page(pd)].tables
      ensures pte.Some? ==> pte.value == EntrySlot(spaces[Page(pd)], va)
    {
      hide SpacesOk, Slot, PdNo, PtNo, Target;
      var pde := mem(Slot(pd, PdNo(va)));
      DirectoryEntry(mem, used, boot, spaces, pd, va);
      if pde == 0 { return None; }
      assert Present(pde) && Mapped(pde);
      pte := Some(Slot(Target(pde), PtNo(va)));
    }

    /** lookup_page with create: a missing table is made of the page on offer; what the
        directory maps stays. */
    method LookupOrCreate(pd: bv32, va: bv32, page: Option<bv32>) returns (pte: Option<bv32>)
      requires Valid() && Offers(page) && Page(pd) in spaces && va < PHYS_BASE && pd != boot
      modifies this
      ensures Valid() && active == old(active) && cache == old(cache)
      ensures var i := Index(PdNo(va));
              var s := old(spaces)[Page(pd)];
              if i in s.tables || page.None? then
                spaces == old(spaces) && mem == old(mem) && used == old(used)
              else
                && used == old(used) + {page.value}
                && spaces == old(spaces)[Page(pd) := Space(s.tables[i := page.value], s.pages)]
      ensures Page(pd) in spaces
      ensures pte.Some? <==> Index(PdNo(va)) in spaces[Page(pd)].tables
      ensures pte.Some? ==> pte.value == EntrySlot(spaces[Page(pd)], va)
    {
      hide SpacesOk, Slot, PdNo, PtNo, KernelPage, PdeCreate, Target, FillPage, Write;
      ghost var s := spaces[Page(pd)];
      var pde := mem(Slot(pd, PdNo(va)));
      DirectoryEntry(mem, used, boot, spaces, pd, va);
      if pde == 0 {
        if page.None? { return None; }
        NewTableStep(mem, used, boot, spaces, pd, PdNo(va), page.value);
        PdeRoundTrip(page.value);
        pde := PdeCreate(page.value);
        mem := Write(FillPage(mem, page.value, 0), Slot(pd, PdNo(va)), pde);
        used := used + {page.value};
        spaces := spaces[Page(pd) := Space(s.tables[Index(PdNo(va)) := page.value], s.pages)];
      }
      assert Present(pde) && Mapped(pde);
      pte := Some(Slot(Target(pde), PtNo(va)));
    }

    /** The page is mapped and every other translation, of this and of every other directory,
        stays; on failure nothing at all is mapped anew. */
    method SetPage(pd: bv32, upage: bv32, kpage: bv32, writable: bool, page: Option<bv32>) returns (ok: bool)
      requires Valid() && Offers(page) && Page(pd) in spaces && pd != boot
      requires UserPage(upage) && KernelPage(kpage) && Mappable(used, spaces, kpage)
      requires Page(upage) !in spaces[Page(pd)].pages
      modifies this
      ensures Valid() && active == old(active) && cache == old(cache)
      ensures Page(pd) in spaces && spaces == old(spaces)[Page(pd) := spaces[Page(pd)]]
      ensures ok <==> page.Some? || Index(PdNo(upage)) in old(spaces)[Page(pd)].tables
      ensures spaces[Page(pd)].pages == var pages := old(spaces)[Page(pd)].pages;
                if ok then pages[Page(upage) := Mapping(kpage, writable)] else pages
      ensures ok ==> Grants(mem, pd, upage, Mapping(kpage, writable))
    {
      hide SpacesOk, Slot, PdNo, PtNo, KernelPage, Mappable, CacheOk, Grants, PgOfs;
      ghost var was, usedWas := spaces, used;
      var pte := LookupOrCreate(pd, upage, page);
      ok := pte.Some?;
      if ok {
        MappableKept(usedWas, was, used, spaces, pd, kpage, page);
        StoreEntry(pd, upage, kpage, writable, pte.value);
      }
    }

    /** pagedir_set_page's assertion that nothing is mapped there, and its store. */
    method StoreEntry(pd: bv32, upage: bv32, kpage: bv32, writable: bool, pte: bv32)
      requires Valid() && Page(pd) in spaces && pd != boot
      requires UserPage(upage) && KernelPage(kpage) && Mappable(used, spaces, kpage)
      requires Page(upage) !in spaces[Page(pd)].pages && Index(PdNo(upage)) in spaces[Page(pd)].tables
      requires pte == EntrySlot(spaces[Page(pd)], upage)
      modifies this`mem, this`spaces
      ensures Valid()
      ensures spaces == Remap(old(spaces), pd, old(spaces)[Page(pd)].pages[Page(upage) := Mapping(kpage, writable)])
      ensures Grants(mem, pd, upage, Mapping(kpage, writable))
    {
      hide SpacesOk, Slot, PdNo, PtNo, KernelPage, PteCreateUser, PteCreateKernel, Meaning, Present, With, Without, Write, Mappable, CacheOk;
      hide Grants, PgOfs;
      MapStep(mem, used, boot, spaces, pd, upage, kpage, writable);
      assert !Present(mem(pte));
      mem := Write(mem, pte, PteCreateUser(kpage, writable));
      spaces := Remap(spaces, pd, spaces[Page(pd)].pages[Page(upage) := Mapping(kpage, writable)]);
      PageGranted(mem, used, boot, spaces, pd, upage);
    }

    /** The flat map's answer, at every address of the page. */
    method GetPage(pd: bv32, uaddr: bv32) returns (k: Option<bv32>)
      requires Valid() && Page(pd) in spaces && uaddr < PHYS_BASE
      ensures k == var pages := spaces[Page(pd)].pages;
                   if Page(PageOf(uaddr)) in pages then Some(At(pages[Page(PageOf(uaddr))].frame, uaddr)) else None
      ensures var t := Translate(mem, pd, uaddr);
              if k.Some? then t.Some? && t.value.address == k.value else t.None?
    {
      hide SpacesOk, Slot, PdNo, PtNo, PageOf, KernelPage, PteCreateUser, PteCreateKernel, Meaning, Present, Target, Mapped, At, Translate;
      SplitPage(uaddr);
      ghost var s := spaces[Page(pd)];
      assert Represents(mem, pd, s) by { IsSpace(mem, used, boot, spaces, pd); }
      TranslateIsFlat(mem, pd, s, uaddr);
      var pte := Lookup(pd, uaddr);
      if pte.None? { return None; }
      EntryIs(mem, used, boot, spaces, pd, PageOf(uaddr));
      var e := mem(pte.value);
      if !Present(e) { return None; }
      ghost var m := s.pages[Page(PageOf(uaddr))];
      PteFrame(e, m.frame, m.writable);
      PteMapped(e, m.frame, m.writable);
      assert Mapped(e);
      k := Some(At(Target(e), uaddr));
    }

    /** invalidate_pagedir: the cache is emptied if it may hold translations of pd. */
    method Invalidate(pd: bv32)
      modifies this`cache
      ensures cache == if active == pd then map[] else old(cache)
    {
      if active == pd { cache := map[]; }
    }

    /** pagedir_activate. */
    method Activate(pd: Option<bv32>)
      requires Valid() && (pd.Some? ==> Page(pd.value) in spaces)
      modifies this`active, this`cache
      ensures Valid() && cache == map[] && active == if pd.None? then boot else pd.value
    {
      hide SpaceOk, Apart;
      active := if pd.None? then boot else pd.value;
      cache := map[];
    }

    /** The page is unmapped, everywhere the processor could look; the other bits of its entry
        and all other words stay. */
    method ClearPage(pd: bv32, upage: bv32)
      requires Valid() && Page(pd) in spaces && pd != boot && UserPage(upage)
      modifies this
      ensures Valid() && active == old(active) && used == old(used)
      ensures spaces == Remap(old(spaces), pd, old(spaces)[Page(pd)].pages - {Page(upage)})
      ensures Page(upage) !in old(spaces)[Page(pd)].pages ==> mem == old(mem)
      ensures Page(upage) in old(spaces)[Page(pd)].pages ==>
                var s := old(spaces)[Page(pd)];
                && Index(PdNo(upage)) in s.tables
                && mem == Write(old(mem), EntrySlot(s, upage), Without(old(mem)(EntrySlot(s, upage)), PTE_P))
    {
      hide SpacesOk, CacheOk, PgOfs, Slot, PdNo, PtNo, Present, With, Without, Write;
      ghost var s := spaces[Page(pd)];
      var pte := Lookup(pd, upage);
      ClearStep(mem, used, boot, spaces, pd, upage);
      if pte.Some? && Present(mem(pte.value)) {
        mem := Write(mem, pte.value, Without(mem(pte.value), PTE_P));
        Invalidate(pd);
        EmptyCache(Space(s.tables, s.pages - {Page(upage)}));
      }
      spaces := Remap(spaces, pd, s.pages - {Page(upage)});
    }

    /** pagedir_is_dirty and pagedir_is_accessed. */
    method TestFlag(pd: bv32, vpage: bv32, flag: bv32) returns (on: bool)
      requires Valid() && Page(pd) in spaces && UserPage(vpage)
      ensures on <==> Index(PdNo(vpage)) in spaces[Page(pd)].tables &&
                      Flagged(mem(EntrySlot(spaces[Page(pd)], vpage)), flag)
    {
      hide SpacesOk, Slot, PdNo, PtNo, Flagged;
      var pte := Lookup(pd, vpage);
      on := pte.Some? && Flagged(mem(pte.value), flag);
    }

    /** pagedir_set_dirty and pagedir_set_accessed: the flag reads back, no other word changes
        and what is mapped does not change. */
    method SetFlag(pd: bv32, vpage: bv32, flag: bv32, on: bool)
      requires Valid() && Page(pd) in spaces && pd != boot && UserPage(vpage)
      requires flag == PTE_A || flag == PTE_D
      modifies this`mem, this`cache
      ensures Valid()
      ensures Index(PdNo(vpage)) !in spaces[Page(pd)].tables ==> mem == old(mem)
      ensures Index(PdNo(vpage)) in spaces[Page(pd)].tables ==>
                var a := EntrySlot(spaces[Page(pd)], vpage);
                (Flagged(mem(a), flag) <==> on) && forall x :: x != a ==> mem(x) == old(mem)(x)
      ensures var cleared := !on && Index(PdNo(vpage)) in spaces[Page(pd)].tables;
              cache == if cleared && active == pd then map[] else old(cache)
    {
      hide SpacesOk, Slot, PdNo, PtNo, Present, Meaning, With, Without, Flagged;
      var pte := Lookup(pd, vpage);
      if pte.Some? {
        FlagStep(mem, used, boot, spaces, pd, vpage, flag);
        SetIsFlagged(mem(pte.value), flag);
        ClearedIsNot(mem(pte.value), flag);
        if on {
          mem := Write(mem, pte.value, With(mem(pte.value), flag));
        } else {
          mem := Write(mem, pte.value, Without(mem(pte.value), flag));
          Invalidate(pd);
        }
      }
    }

    /** The processor translates a user address, from the cache where it can, and caches the
        walk it does otherwise: the answer is always the active directory's map. */
    method Resolve(va: bv32) returns (k: Option<Access>)
      requires Valid() && va < PHYS_BASE
      modifies this`cache
      ensures Valid()
      ensures k == var pages := spaces[Page(active)].pages;
                   if Page(PageOf(va)) in pages then Some(Granted(pages[Page(PageOf(va))], va)) else None
    {
      hide SpacesOk, Slot, PdNo, PtNo, PageOf, PgOfs, Present, Target, At, Translate;
      var u := PageOf(va);
      if Page(u) in cache { return Some(cache[Page(u)].(address := At(cache[Page(u)].address, va))); }
      ghost var s := spaces[Page(active)];
      assert Represents(mem, active, s) by { IsSpace(mem, used, boot, spaces, active); }
      SplitPage(va);
      TranslateIsFlat(mem, active, s, va);
      TranslateIsFlat(mem, active, s, u);
      AtStart(va);
      var frame := Translate(mem, active, u);
      k := Translate(mem, active, va);
      if frame.Some? {
        AtPage(s.pages[Page(u)].frame, u);
        cache := cache[Page(u) := frame.value];
      }
    }

    /** palloc_free_page: the page must be in use, and its contents are lost. */
    method PallocFree(p: bv32)
      requires p in used
      modifies this`mem, this`used
      ensures used == old(used) - {p} && mem == FillPage(old(mem), p, 0xcccc_cccc)
    {
      mem := FillPage(mem, p, 0xcccc_cccc);
      used := used - {p};
    }

    /** One page table of a directory that is going away: every frame it maps is freed once,
        and then the table itself. */
    method DestroyTable(pd: bv32, i: bv32, ghost mem0: Memory, ghost used0: set<bv32>, ghost s: Space)
      requires Separate(pd, s) && Represents(mem0, pd, s) && i < USER_ENTRIES && Index(i) in s.tables
      requires Frames(s) + TablePages(pd, s) <= used0
      requires used == used0 - Freed(s, i, 0) && SameOutside(mem0, mem, Freed(s, i, 0))
      modifies this`mem, this`used
      ensures used == used0 - Freed(s, Succ(i), 0) && SameOutside(mem0, mem, Freed(s, Succ(i), 0))
    {
      hide Slot, PdNo, PtNo, Present, Target, Mapped, Separate, Represents, Freed, Frames, TablePages, Join, PageOf, PdeCreate, FillPage, SameOutside;
      TableEntry(mem0, mem, pd, s, i, 0);
      var pt := Target(mem(Slot(pd, i)));
      var j: bv32 := 0;
      while j < ENTRIES
        invariant j <= ENTRIES
        invariant used == used0 - Freed(s, i, j) && SameOutside(mem0, mem, Freed(s, i, j))
        decreases ENTRIES - j
      {
        TableEntry(mem0, mem, pd, s, i, j);
        FrameStep(pd, s, i, j);
        var pte := mem(Slot(pt, j));
        if Present(pte) {
          assert Mapped(pte);
          assert Target(pte) in used0 by { FrameOwned(s, Page(Join(i, j))); }
          FillKeeps(mem0, mem, Freed(s, i, j), Target(pte));
          PallocFree(Target(pte));
        }
        j := Succ(j);
      }
      TableStep(pd, s, i);
      assert pt in used0 by { TableOwned(pd, s, Index(i)); }
      FillKeeps(mem0, mem, Freed(s, i, ENTRIES), pt);
      PallocFree(pt);
    }

    /** Entry i of such a directory: its table, if it has one. */
    method DestroyEntry(pd: bv32, i: bv32, ghost mem0: Memory, ghost used0: set<bv32>, ghost s: Space)
      requires Separate(pd, s) && Represents(mem0, pd, s) && i < USER_ENTRIES
      requires Frames(s) + TablePages(pd, s) <= used0
      requires used == used0 - Freed(s, i, 0) && SameOutside(mem0, mem, Freed(s, i, 0))
      modifies this`mem, this`used
      ensures used == used0 - Freed(s, Succ(i), 0) && SameOutside(mem0, mem, Freed(s, Succ(i), 0))
    {
      hide Slot, Present, Target, Mapped, Separate, Represents, Freed, Frames, TablePages, Join, SameOutside, Succ;
      TableEntry(mem0, mem, pd, s, i, 0);
      if Present(mem(Slot(pd, i))) {
        DestroyTable(pd, i, mem0, used0, s);
      } else {
        TableStep(pd, s, i);
      }
    }

    /** All the page tables of a directory that is going away. */
    method DestroyTables(pd: bv32, ghost s: Space)
      requires Separate(pd, s) && Represents(mem, pd, s) && Frames(s) + TablePages(pd, s) <= used
      modifies this`mem, this`used
      ensures used == old(used) - Freed(s, USER_ENTRIES, 0)
      ensures SameOutside(old(mem), mem, Freed(s, USER_ENTRIES, 0))
    {
      hide Separate, Represents, Freed, Frames, TablePages, SameOutside;
      FreedNone(s);
      SameAtFirst(mem);
      ghost var mem0, used0 := mem, used;
      var i: bv32 := 0;
      while i < USER_ENTRIES
        invariant i <= USER_ENTRIES
        invariant used == used0 - Freed(s, i, 0) && SameOutside(mem0, mem, Freed(s, i, 0))
        decreases USER_ENTRIES - i
      {
        DestroyEntry(pd, i, mem0, used0, s);
        i := Succ(i);
      }
    }

    /** Every present frame, every page table and the directory are freed, each once; the
        other directories keep their meaning. */
    method Destroy(pd: bv32)
      requires Valid() && Page(pd) in spaces && pd != boot && active != pd
      requires Sole(spaces[Page(pd)])
      requires forall q :: q in spaces && q != Page(pd) ==> Frames(spaces[q]) !! Frames(spaces[Page(pd)])
      modifies this`mem, this`used, this`spaces
      ensures Valid() && spaces == old(spaces) - {Page(pd)}
      ensures used == old(used) - Frames(old(spaces)[Page(pd)]) - TablePages(pd, old(spaces)[Page(pd)])
    {
      hide Slot, PgOfs, Separate, Represents, Freed, Frames, TablePages, PageOf, FillPage, SameOutside, SpacesOk, Apart, Sole, CacheOk;
      ghost var mem0, used0, s := mem, used, spaces[Page(pd)];
      DestroyStarts(mem, used, boot, spaces, pd);
      DestroyTables(pd, s);
      TableUnfreed(pd, s, USER_ENTRIES, 0);
      FreedAll(pd, s);
      FillKeeps(mem0, mem, Freed(s, USER_ENTRIES, 0), pd);
      PallocFree(pd);
      DestroyEnds(mem0, mem, used0, used, boot, spaces, pd);
      spaces := spaces - {Page(pd)};
    }
  }

  lemma SameAtFirst(mem: Memory)
    ensures SameOutside(mem, mem, {})
  {
  }

  lemma FrameOwned(s: Space, u: Page)
    requires u in s.pages
    ensures s.pages[u].frame in Frames(s)
  {
  }

  lemma TableOwned(pd: bv32, s: Space, i: Index)
    requires i in s.tables
    ensures s.tables[i] in TablePages(pd, s)
  {
  }

  lemma DestroyStarts(mem: Memory, used: set<bv32>, boot: bv32, spaces: map<Page, Space>, pd: bv32)
    requires SpacesOk(mem, used, boot, spaces) && Page(pd) in spaces && Sole(spaces[Page(pd)])
    ensures var s := spaces[Page(pd)];
            && Separate(pd, s) && Represents(mem, pd, s) && Frames(s) + TablePages(pd, s) <= used
            && pd in TablePages(pd, s) && Freed(s, 0, 0) == {} && SameOutside(mem, mem, {})
  {
    hide SpacesOk, DirOk, EntryOk, Freed, PdNo, PtNo, UserPage, Slot, Sole, TablesOk;
    IsSpace(mem, used, boot, spaces, pd);
    var s := spaces[Page(pd)];
    FreedNone(s);
    forall u | u in s.pages ensures UserPage(u.word) && Index(PdNo(u.word)) in s.tables {
      assert u == Page(u.word);
    }
  }

  lemma DestroyEnds(mem: Memory, mem2: Memory, used: set<bv32>, used2: set<bv32>, boot: bv32,
                    spaces: map<Page, Space>, pd: bv32)
    requires SpacesOk(mem, used, boot, spaces) && Page(pd) in spaces && pd != boot
    requires forall q :: q in spaces && q != Page(pd) ==> Frames(spaces[q]) !! Frames(spaces[Page(pd)])
    requires SameOutside(mem, mem2, Frames(spaces[Page(pd)]) + TablePages(pd, spaces[Page(pd)]))
    requires used2 == used - Frames(spaces[Page(pd)]) - TablePages(pd, spaces[Page(pd)])
    ensures SpacesOk(mem2, used2, boot, spaces - {Page(pd)})
  {
    hide Represents, Slot, Frames, TablePages, SameOutside;
    var ps := Frames(spaces[Page(pd)]) + TablePages(pd, spaces[Page(pd)]);
    Kept(mem, mem2, ps, boot, spaces[Page(boot)]);
    forall q | q in spaces && q != Page(pd) ensures SpaceOk(mem2, used2, boot, q.word, spaces[q]) {
      Kept(mem, mem2, ps, q.word, spaces[q]);
    }
  }

  lemma FillKeeps(mem0: Memory, mem: Memory, ps: set<bv32>, p: bv32)
    requires SameOutside(mem0, mem, ps)
    ensures SameOutside(mem0, FillPage(mem, p, 0xcccc_cccc), ps + {p})
  {
    hide PageOf;
  }

  /** The walk of pagedir_destroy reads only words that are still there. */
  lemma TableEntry(mem0: Memory, mem: Memory, pd: bv32, s: Space, i: bv32, j: bv32)
    requires Separate(pd, s) && Represents(mem0, pd, s) && i < USER_ENTRIES && j <= ENTRIES
    requires SameOutside(mem0, mem, Freed(s, i, j))
    ensures var pde := mem(Slot(pd, i));
            if Index(i) !in s.tables then !Present(pde)
            else
              var t := s.tables[Index(i)];
              var u := Page(Join(i, j));
              && Present(pde) && Mapped(pde) && Target(pde) == t
              && (j < ENTRIES ==>
                    (Present(mem(Slot(t, j))) <==> u in s.pages) &&
                    (u in s.pages ==> Mapped(mem(Slot(t, j))) && Target(mem(Slot(t, j))) == s.pages[u].frame))
  {
    hide Slot, PageOf, PgOfs, PtNo, PdNo, Meaning, PteCreateUser, PdeCreate, Present, Target, Mapped, Join, Freed;
    TableUnfreed(pd, s, i, j);
    SlotPage(pd, i);
    NotPresentZero();
    if Index(i) in s.tables {
      var t := s.tables[Index(i)];
      PdeRoundTrip(t);
      if j < ENTRIES {
        SlotPage(t, j);
        JoinSplit(i, j);
        var u := Join(i, j);
        var e := mem0(Slot(t, j));
        assert EntryOk(mem0(Slot(s.tables[Index(PdNo(u))], PtNo(u))), s.pages, u);
        if Page(u) in s.pages {
          PtePresent(e, s.pages[Page(u)].frame, s.pages[Page(u)].writable);
          PteFrame(e, s.pages[Page(u)].frame, s.pages[Page(u)].writable);
          PteMapped(e, s.pages[Page(u)].frame, s.pages[Page(u)].writable);
        }
      }
    }
  }

  lemma AtStart(va: bv32)
    ensures PageOf(PageOf(va)) == PageOf(va) && PgOfs(PageOf(va)) == 0
  {
  }

  lemma AtPage(p: bv32, u: bv32)
    requires PgOfs(u) == 0
    ensures At(p, u) == p
  {
  }

  /** The directories once pd has other pages mapped. */
  ghost function Remap(spaces: map<Page, Space>, pd: bv32, pages: map<Page, Mapping>): map<Page, Space>
    requires Page(pd) in spaces
  {
    spaces[Page(pd) := Space(spaces[Page(pd)].tables, pages)]
  }

  lemma MapStep(mem: Memory, used: set<bv32>, boot: bv32, spaces: map<Page, Space>, pd: bv32,
                u: bv32, k: bv32, writable: bool)
    requires SpacesOk(mem, used, boot, spaces) && Page(pd) in spaces && pd != boot
    requires UserPage(u) && Index(PdNo(u)) in spaces[Page(pd)].tables && Page(u) !in spaces[Page(pd)].pages
    requires KernelPage(k) && Mappable(used, spaces, k)
    ensures var s := spaces[Page(pd)];
            && !Present(mem(EntrySlot(s, u)))
            && SpacesOk(Write(mem, EntrySlot(s, u), PteCreateUser(k, writable)), used, boot,
                        Remap(spaces, pd, s.pages[Page(u) := Mapping(k, writable)]))
    ensures var s := spaces[Page(pd)];
            forall cache :: CacheOk(cache, s) ==>
              CacheOk(cache, Space(s.tables, s.pages[Page(u) := Mapping(k, writable)]))
  {
    hide SpacesOk, Slot, PdNo, PtNo, KernelPage, PteCreateUser, PteCreateKernel, Meaning, Present, With, Without, Write, Mappable;
    var s := spaces[Page(pd)];
    var pages := s.pages[Page(u) := Mapping(k, writable)];
    EntryIs(mem, used, boot, spaces, pd, u);
    PteMeaning(k, writable);
    EntryStep(mem, used, boot, spaces, pd, u, PteCreateUser(k, writable), pages);
  }

  /** Clearing the present bit unmaps the page; where it is clear or missing nothing is mapped. */
  lemma ClearStep(mem: Memory, used: set<bv32>, boot: bv32, spaces: map<Page, Space>, pd: bv32, u: bv32)
    requires SpacesOk(mem, used, boot, spaces) && Page(pd) in spaces && pd != boot && UserPage(u)
    ensures var s := spaces[Page(pd)];
            var spaces2 := Remap(spaces, pd, s.pages - {Page(u)});
            if Index(PdNo(u)) in s.tables && Present(mem(EntrySlot(s, u))) then
              Page(u) in s.pages &&
              SpacesOk(Write(mem, EntrySlot(s, u), Without(mem(EntrySlot(s, u)), PTE_P)), used, boot, spaces2)
            else
              Page(u) !in s.pages && spaces2 == spaces
  {
    hide SpacesOk, Slot, PdNo, PtNo, Present, With, Without, Write;
    var s := spaces[Page(pd)];
    var pages := s.pages - {Page(u)};
    if Index(PdNo(u)) in s.tables {
      EntryIs(mem, used, boot, spaces, pd, u);
      var e := mem(EntrySlot(s, u));
      if Present(e) {
        ClearPresent(e);
        EntryStep(mem, used, boot, spaces, pd, u, Without(e, PTE_P), pages);
      } else {
        assert pages == s.pages;
      }
    } else {
      IsSpace(mem, used, boot, spaces, pd);
      assert pages == s.pages;
    }
  }

  /** Setting or clearing the accessed or the dirty bit of an entry maps the same pages. */
  lemma FlagStep(mem: Memory, used: set<bv32>, boot: bv32, spaces: map<Page, Space>, pd: bv32, u: bv32, flag: bv32)
    requires SpacesOk(mem, used, boot, spaces) && Page(pd) in spaces && pd != boot && UserPage(u)
    requires Index(PdNo(u)) in spaces[Page(pd)].tables && (flag == PTE_A || flag == PTE_D)
    ensures var a := EntrySlot(spaces[Page(pd)], u);
            && SpacesOk(Write(mem, a, With(mem(a), flag)), used, boot, spaces)
            && SpacesOk(Write(mem, a, Without(mem(a), flag)), used, boot, spaces)
  {
    hide SpacesOk, Slot, PdNo, PtNo, Present, With, Without, Write, Meaning, PteCreateUser, TablePages, Frames, KernelPage;
    var s := spaces[Page(pd)];
    var e := mem(EntrySlot(s, u));
    EntryIs(mem, used, boot, spaces, pd, u);
    if Page(u) in s.pages { MappedFrames(mem, used, boot, spaces, pd, u); }
    FlagMeaning(flag);
    SetFlag(e, flag);
    ClearFlag(e, flag);
    PresentByMeaning(With(e, flag), e);
    PresentByMeaning(Without(e, flag), e);
    EntryStep(mem, used, boot, spaces, pd, u, With(e, flag), s.pages);
    EntryStep(mem, used, boot, spaces, pd, u, Without(e, flag), s.pages);
    assert spaces[Page(pd) := Space(s.tables, s.pages)] == spaces;
  }

  lemma FlagMeaning(flag: bv32)
    requires flag == 0x20 || flag == 0x40
    ensures Meaning(flag) == 0
  {
  }

  lemma MappedFrames(mem: Memory, used: set<bv32>, boot: bv32, spaces: map<Page, Space>, pd: bv32, u: bv32)
    requires SpacesOk(mem, used, boot, spaces) && Page(pd) in spaces && Page(u) in spaces[Page(pd)].pages
    ensures Mappable(used, spaces, spaces[Page(pd)].pages[Page(u)].frame)
  {
    hide Represents, Slot, TablePages;
    assert spaces[Page(pd)].pages[Page(u)].frame in Frames(spaces[Page(pd)]);
  }

  /** At every address of user page u the processor gets what mapping m grants. */
  ghost predicate Grants(mem: Memory, pd: bv32, u: bv32, m: Mapping)
  {
    forall va :: va < PHYS_BASE && PageOf(va) == u ==> Translate(mem, pd, va) == Some(Granted(m, va))
  }

  /** A mapped page is the processor's as the mapping says, at every address of it. */
  lemma PageGranted(mem: Memory, used: set<bv32>, boot: bv32, spaces: map<Page, Space>, pd: bv32, u: bv32)
    requires SpacesOk(mem, used, boot, spaces) && Page(pd) in spaces && Page(u) in spaces[Page(pd)].pages
    ensures Grants(mem, pd, u, spaces[Page(pd)].pages[Page(u)])
  {
    IsSpace(mem, used, boot, spaces, pd);
    hide SpacesOk, Represents, Translate, PageOf;
    forall va | va < PHYS_BASE && PageOf(va) == u
      ensures Translate(mem, pd, va) == Some(Granted(spaces[Page(pd)].pages[Page(u)], va))
    {
      TranslateIsFlat(mem, pd, spaces[Page(pd)], va);
    }
  }

  lemma EmptyCache(s: Space)
    ensures CacheOk(map[], s)
  {
  }

  lemma IsSpace(mem: Memory, used: set<bv32>, boot: bv32, spaces: map<Page, Space>, pd: bv32)
    requires SpacesOk(mem, used, boot, spaces) && Page(pd) in spaces
    ensures SpaceOk(mem, used, boot, pd, spaces[Page(pd)])
  {
    hide SpaceOk;
  }

  /** A table entry is what the flat map says of its page. */
  lemma EntryIs(mem: Memory, used: set<bv32>, boot: bv32, spaces: map<Page, Space>, pd: bv32, u: bv32)
    requires SpacesOk(mem, used, boot, spaces) && Page(pd) in spaces && UserPage(u)
    requires Index(PdNo(u)) in spaces[Page(pd)].tables
    ensures var s := spaces[Page(pd)];
            var e := mem(EntrySlot(s, u));
            && EntryOk(e, s.pages, u)
            && (Present(e) <==> Page(u) in s.pages)
  {
    hide SpacesOk, TablesOk, DirOk, PteCreateUser, PteCreateKernel, Meaning, Present, Slot, PdNo, PtNo;
    IsSpace(mem, used, boot, spaces, pd);
    var s := spaces[Page(pd)];
    var e := mem(EntrySlot(s, u));
    if Page(u) in s.pages { PtePresent(e, s.pages[Page(u)].frame, s.pages[Page(u)].writable); }
  }

  lemma MappableKept(used: set<bv32>, spaces: map<Page, Space>, used2: set<bv32>, spaces2: map<Page, Space>,
                     pd: bv32, k: bv32, page: Option<bv32>)
    requires Mappable(used, spaces, k) && Page(pd) in spaces
    requires (used2 == used && spaces2 == spaces) ||
             (page.Some? && page.value !in used && used2 == used + {page.value} &&
              exists i :: i !in spaces[Page(pd)].tables && spaces2 ==
                spaces[Page(pd) := Space(spaces[Page(pd)].tables[i := page.value], spaces[Page(pd)].pages)])
    ensures Mappable(used2, spaces2, k)
  {
    var s := spaces[Page(pd)];
    if used2 != used {
      var i :| i !in s.tables && spaces2 == spaces[Page(pd) := Space(s.tables[i := page.value], s.pages)];
      TablePagesGrow(pd, s, spaces2[Page(pd)], i, page.value);
    }
  }

  lemma NewDirectory(mem: Memory, used: set<bv32>, boot: bv32, spaces: map<Page, Space>, pd: bv32)
    requires SpacesOk(mem, used, boot, spaces) && pd !in used
    ensures Page(pd) !in spaces
  {
    hide Represents, Slot, Frames;
    assert pd in TablePages(pd, if Page(pd) in spaces then spaces[Page(pd)] else Space(map[], map[]));
  }

  /** lookup_page's test: a user entry of a directory is zero, or leads to its table. */
  lemma DirectoryEntry(mem: Memory, used: set<bv32>, boot: bv32, spaces: map<Page, Space>, pd: bv32, va: bv32)
    requires SpacesOk(mem, used, boot, spaces) && Page(pd) in spaces && va < PHYS_BASE
    ensures PdNo(va) < USER_ENTRIES
    ensures var s := spaces[Page(pd)];
            var pde := mem(Slot(pd, PdNo(va)));
            if Index(PdNo(va)) in s.tables then
              pde != 0 && Present(pde) && Mapped(pde) && Target(pde) == s.tables[Index(PdNo(va))]
            else pde == 0
  {
    hide Slot, PdNo, PtNo, Target, Mapped, Present, PdeCreate, PagesOk, Frames, PageOf, KernelPage;
    SplitBounds(va);
    var s := spaces[Page(pd)];
    assert SpaceOk(mem, used, boot, pd, s);
    if Index(PdNo(va)) in s.tables { PdeRoundTrip(s.tables[Index(PdNo(va))]); }
  }
}
