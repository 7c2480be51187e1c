/** Which pages pagedir_destroy has freed once it has gone through the entries before entry j
    of table i. */
module PageFreeing {
  import opened PageAddress
  import opened PageTables

  predicate Below(i: bv32, j: bv32) { i < j }
  function Succ(i: bv32): bv32 { i + 1 }

  predicate Before(u: bv32, i: bv32, j: bv32)
  {
    Below(PdNo(u), i) || (PdNo(u) == i && Below(PtNo(u), j))
  }

  ghost function FreedFrames(s: Space, i: bv32, j: bv32): set<bv32>
  {
    set u | u in s.pages && Before(u.word, i, j) :: s.pages[u].frame
  }

  ghost function FreedTables(s: Space, i: bv32): set<bv32>
  {
    set k | k in s.tables && Below(k.word, i) :: s.tables[k]
  }

  ghost function Freed(s: Space, i: bv32, j: bv32): set<bv32>
  {
    FreedFrames(s, i, j) + FreedTables(s, i)
  }

  /** No frame is mapped twice. */
  ghost predicate Sole(s: Space)
  {
    forall u, v :: u in s.pages && v in s.pages && s.pages[u].frame == s.pages[v].frame ==> u == v
  }

  /** What pagedir_destroy relies on. */
  ghost predicate Separate(pd: bv32, s: Space)
  {
    && TablesOk(pd, s.tables) && Sole(s) && Frames(s) !! TablePages(pd, s)
    && forall u :: u in s.pages ==> UserPage(u.word) && Index(PdNo(u.word)) in s.tables
  }

  lemma BeforeNext(u: bv32, i: bv32, j: bv32)
    requires UserPage(u) && i < USER_ENTRIES && j < ENTRIES
    ensures Before(u, i, Succ(j)) <==> Before(u, i, j) || u == Join(i, j)
  {
    hide Below, Succ, PdNo, PtNo, PgOfs, Join;
    JoinSplit(i, j);
    if PdNo(u) == i {
      Next(PtNo(u), j);
      if PtNo(u) == j { SplitInjective(u, Join(i, j)); }
    }
  }

  lemma NotYet(i: bv32, j: bv32)
    requires i < USER_ENTRIES && j < ENTRIES
    ensures !Before(Join(i, j), i, j)
  {
    hide Below, Succ, PdNo, PtNo, PgOfs, Join;
    JoinSplit(i, j);
    NotBelow(i);
    NotBelow(j);
  }

  lemma BeforeRow(u: bv32, i: bv32)
    requires UserPage(u) && i < USER_ENTRIES
    ensures Before(u, i, ENTRIES) <==> Before(u, Succ(i), 0)
    ensures PdNo(u) != i ==> (Before(u, i, 0) <==> Before(u, Succ(i), 0))
  {
    hide Below, Succ, PdNo, PtNo, PgOfs;
    Next(PdNo(u), i);
    InTable(PtNo(u), u);
  }

  lemma Next(k: bv32, i: bv32)
    requires i < ENTRIES
    ensures Below(k, Succ(i)) <==> Below(k, i) || k == i
  {
  }

  lemma NotBelow(i: bv32)
    ensures !Below(i, i)
  {
  }

  lemma InTable(j: bv32, u: bv32)
    requires j == PtNo(u)
    ensures Below(j, ENTRIES) && !Below(j, 0)
  {
  }

  lemma InUserPart(u: bv32)
    requires u < PHYS_BASE
    ensures Below(PdNo(u), USER_ENTRIES)
  {
  }

  lemma FrameStep(pd: bv32, s: Space, i: bv32, j: bv32)
    requires Separate(pd, s) && i < USER_ENTRIES && j < ENTRIES
    ensures var u := Page(Join(i, j));
            if u in s.pages then
              && s.pages[u].frame !in Freed(s, i, j)
              && Freed(s, i, Succ(j)) == Freed(s, i, j) + {s.pages[u].frame}
            else Freed(s, i, Succ(j)) == Freed(s, i, j)
  {
    hide Below, Succ, Before, Join, PdNo, TablesOk, UserPage;
    var u := Page(Join(i, j));
    forall v | v in s.pages ensures Before(v.word, i, Succ(j)) <==> Before(v.word, i, j) || v == u {
      BeforeNext(v.word, i, j);
    }
    NotYet(i, j);
    FramesNext(s, i, j, u);
    if u in s.pages {
      assert s.pages[u].frame in Frames(s);
      forall k | k in s.tables ensures s.tables[k] != s.pages[u].frame {
        assert s.tables[k] in TablePages(pd, s);
      }
    }
  }

  lemma FramesNext(s: Space, i: bv32, j: bv32, u: Page)
    requires Sole(s) && !Before(u.word, i, j)
    requires forall v :: v in s.pages ==> (Before(v.word, i, Succ(j)) <==> Before(v.word, i, j) || v == u)
    ensures if u in s.pages then
              && s.pages[u].frame !in FreedFrames(s, i, j)
              && FreedFrames(s, i, Succ(j)) == FreedFrames(s, i, j) + {s.pages[u].frame}
            else FreedFrames(s, i, Succ(j)) == FreedFrames(s, i, j)
  {
    hide Below, Succ, Before;
  }

  lemma TableStep(pd: bv32, s: Space, i: bv32)
    requires Separate(pd, s) && i < USER_ENTRIES
    ensures if Index(i) in s.tables then
              && s.tables[Index(i)] !in Freed(s, i, ENTRIES)
              && Freed(s, Succ(i), 0) == Freed(s, i, ENTRIES) + {s.tables[Index(i)]}
            else Freed(s, Succ(i), 0) == Freed(s, i, 0)
  {
    hide Below, Succ, Before, PdNo, UserPage, KernelPage;
    forall u | u in s.pages
      ensures Before(u.word, i, ENTRIES) <==> Before(u.word, Succ(i), 0)
      ensures Index(i) !in s.tables ==> (Before(u.word, i, 0) <==> Before(u.word, Succ(i), 0))
    {
      BeforeRow(u.word, i);
    }
    assert FreedFrames(s, i, ENTRIES) == FreedFrames(s, Succ(i), 0);
    assert Index(i) !in s.tables ==> FreedFrames(s, i, 0) == FreedFrames(s, Succ(i), 0);
    TablesNext(pd, s, i);
    TableUnfreed(pd, s, i, ENTRIES);
  }

  lemma TablesNext(pd: bv32, s: Space, i: bv32)
    requires TablesOk(pd, s.tables) && i < USER_ENTRIES
    ensures if Index(i) in s.tables then FreedTables(s, Succ(i)) == FreedTables(s, i) + {s.tables[Index(i)]}
            else FreedTables(s, Succ(i)) == FreedTables(s, i)
  {
    hide Below, Succ, TablesOk, FreedTables;
    forall k | k in s.tables ensures Below(k.word, Succ(i)) <==> Below(k.word, i) || k == Index(i) {
      Next(k.word, i);
    }
    TablesUpTo(s, i, Succ(i));
  }

  lemma TablesUpTo(s: Space, i: bv32, next: bv32)
    requires forall k :: k in s.tables ==> (Below(k.word, next) <==> Below(k.word, i) || k == Index(i))
    ensures if Index(i) in s.tables then FreedTables(s, next) == FreedTables(s, i) + {s.tables[Index(i)]}
            else FreedTables(s, next) == FreedTables(s, i)
  {
  }

  /** The table being read, and the directory, are not freed yet. */
  lemma TableUnfreed(pd: bv32, s: Space, i: bv32, j: bv32)
    requires Separate(pd, s)
    ensures pd !in Freed(s, i, j)
    ensures Index(i) in s.tables ==> s.tables[Index(i)] !in Freed(s, i, j)
  {
    hide Below, Succ, Before, PdNo, UserPage, KernelPage;
    NotBelow(i);
    assert pd in TablePages(pd, s);
    assert FreedFrames(s, i, j) <= Frames(s);
    if Index(i) in s.tables { assert s.tables[Index(i)] in TablePages(pd, s); }
  }

  lemma FreedNone(s: Space)
    ensures Freed(s, 0, 0) == {}
  {
  }

  lemma FreedAll(pd: bv32, s: Space)
    requires Separate(pd, s)
    ensures Freed(s, USER_ENTRIES, 0) + {pd} == Frames(s) + TablePages(pd, s)
  {
    hide PdNo, PtNo, PgOfs, KernelPage;
    forall u | u in s.pages ensures Before(u.word, USER_ENTRIES, 0) {
      InUserPart(u.word);
    }
    assert FreedFrames(s, USER_ENTRIES, 0) == Frames(s);
  }
}
