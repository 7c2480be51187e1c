/** The block allocator (threads/malloc.c) over the page allocator.

    Addresses are natural numbers.  An arena is named by the number of its first page; its
    twelve-byte header sits at the start of that page.  `live` is history: the blocks handed
    out and not yet freed, with the sizes asked for. */
module Malloc {
  import opened Options
  import opened Integers
  import opened Sequences
  import opened Palloc
  import opened Vaddr
  import opened Bytes

  const HEADER: nat := 12
  const DESC_CNT: nat := 7

  datatype Desc = Desc(blockSize: nat, blocksPerArena: nat)

  /** Block sizes are the powers of two from 16 up to, not including, half a page. */
  function BlockSize(d: nat): (r: nat)
    requires d < DESC_CNT
    ensures r > 0
  {
    if d == 0 then 16 else 2 * BlockSize(d - 1)
  }

  function PerArena(d: nat): nat
    requires d < DESC_CNT
  {
    DivDef(PGSIZE - HEADER, BlockSize(d));
    (PGSIZE - HEADER) / BlockSize(d)
  }

  /** free_cnt counts free blocks in a small-block arena and pages in a big one. */
  datatype Arena = Small(d: nat, freeCnt: nat) | Big(pages: nat)

  /** malloc_init. */
  method InitDescs() returns (descs: seq<Desc>)
    ensures |descs| == DESC_CNT
    ensures forall d :: 0 <= d < DESC_CNT ==> descs[d] == Desc(BlockSize(d), PerArena(d))
  {
    descs := [];
    var blockSize := 16;
    SizeTable();
    while blockSize < PGSIZE / 2
      invariant |descs| <= DESC_CNT
      invariant forall d :: 0 <= d < |descs| ==> descs[d] == Desc(BlockSize(d), PerArena(d))
      invariant blockSize == if |descs| < DESC_CNT then BlockSize(|descs|) else PGSIZE / 2
      decreases PGSIZE - blockSize
    {
      descs := descs + [Desc(blockSize, (PGSIZE - HEADER) / blockSize)];
      blockSize := blockSize * 2;
    }
  }

  lemma SizeTable()
    ensures BlockSize(0) == 16 && BlockSize(1) == 32 && BlockSize(2) == 64 && BlockSize(3) == 128
    ensures BlockSize(4) == 256 && BlockSize(5) == 512 && BlockSize(6) == 1024
  {
    assert BlockSize(2) == 64;
    assert BlockSize(4) == 256;
  }

  lemma ArenaHoldsBlocks(d: nat)
    requires d < DESC_CNT
    ensures PerArena(d) >= 3 && PerArena(d) * BlockSize(d) + HEADER <= PGSIZE
    ensures PGSIZE < (PerArena(d) + 1) * BlockSize(d) + HEADER
  {
    SizeTable();
  }

  // ----- addresses

  function PageNo(p: nat): nat { p / PGSIZE }
  function PageOfs(p: nat): nat { p % PGSIZE }

  /** arena_to_block */
  function Block(a: nat, d: nat, i: nat): nat
    requires d < DESC_CNT
  {
    a * PGSIZE + HEADER + i * BlockSize(d)
  }

  /** The alignment check of block_to_arena, with the index in range. */
  predicate IsBlock(p: nat, d: nat)
    requires d < DESC_CNT
  {
    && PageOfs(p) >= HEADER
    && (PageOfs(p) - HEADER) % BlockSize(d) == 0
    && (PageOfs(p) - HEADER) / BlockSize(d) < PerArena(d)
  }

  function IndexOf(p: nat, d: nat): nat
    requires d < DESC_CNT && IsBlock(p, d)
  {
    (PageOfs(p) - HEADER) / BlockSize(d)
  }

  /** An arena's blocks fit in the page after the header. */
  lemma BlocksFit(d: nat, i: nat)
    requires d < DESC_CNT && i < PerArena(d)
    ensures HEADER + i * BlockSize(d) + BlockSize(d) <= PGSIZE
  {
    var n, b := PerArena(d), BlockSize(d);
    ArenaHoldsBlocks(d);
    hide *;
    MulNext(i, n, b);
  }

  /** arena_to_block and block_to_arena undo each other, and blocks stay inside their page. */
  lemma BlockRoundTrip(a: nat, d: nat, i: nat)
    requires d < DESC_CNT && i < PerArena(d)
    ensures PageNo(Block(a, d, i)) == a && IsBlock(Block(a, d, i), d) && IndexOf(Block(a, d, i), d) == i
    ensures Block(a, d, i) + BlockSize(d) <= (a + 1) * PGSIZE
  {
    hide BlockSize, PerArena;
    var b := BlockSize(d);
    BlocksFit(d, i);
    ModUnique(Block(a, d, i), PGSIZE, a, HEADER + i * b);
    ModUnique(i * b, b, i, 0);
  }

  lemma IndexRoundTrip(p: nat, d: nat)
    requires d < DESC_CNT && IsBlock(p, d)
    ensures Block(PageNo(p), d, IndexOf(p, d)) == p
  {
    var r := PageOfs(p) - HEADER;
    assert r == IndexOf(p, d) * BlockSize(d);
  }

  // ----- the allocator's state, as a value

  datatype Heap = Heap(arenas: map<nat, Arena>, lists: seq<seq<nat>>, live: map<nat, nat>)

  function Pages(ar: Arena): nat { if ar.Small? then 1 else ar.pages }

  /** Bytes available to the caller of a block in the arena. */
  function Capacity(ar: Arena): int
    requires ar.Small? ==> ar.d < DESC_CNT
  {
    if ar.Small? then BlockSize(ar.d) else ar.pages * PGSIZE - HEADER
  }

  /** Indices of arena a's blocks that are on the list. */
  ghost function FreeIdx(a: nat, d: nat, list: seq<nat>): set<nat>
    requires d < DESC_CNT
  {
    set i | i in Range(0, PerArena(d)) && Block(a, d, i) in list
  }

  ghost predicate ArenasOk(h: Heap)
  {
    && |h.lists| == DESC_CNT
    && (forall a :: a in h.arenas && h.arenas[a].Small? ==> h.arenas[a].d < DESC_CNT)
    && (forall a :: a in h.arenas && h.arenas[a].Big? ==> h.arenas[a].pages > 0)
    && (forall a, b :: a in h.arenas && b in h.arenas && a < b ==> a + Pages(h.arenas[a]) <= b)
  }

  /** Every free block belongs to a small-block arena of its list's descriptor. */
  ghost predicate ListsOk(h: Heap)
    requires ArenasOk(h)
  {
    && (forall d :: 0 <= d < DESC_CNT ==> Distinct(h.lists[d]))
    && (forall d, x :: 0 <= d < DESC_CNT && x in h.lists[d] ==>
          && PageNo(x) in h.arenas && h.arenas[PageNo(x)].Small?
          && h.arenas[PageNo(x)].d == d && IsBlock(x, d))
  }

  /** free_cnt is the number of the arena's blocks on its list.  Only arenas in `full` may be
      wholly free. */
  ghost predicate CountsOk(h: Heap, full: set<nat>)
    requires ArenasOk(h)
  {
    forall a :: a in h.arenas && h.arenas[a].Small? ==>
      var ar := h.arenas[a];
      && ar.freeCnt == |FreeIdx(a, ar.d, h.lists[ar.d])|
      && (ar.freeCnt >= PerArena(ar.d) ==> a in full)
  }

  /** A block position that is not free: what malloc can have returned. */
  predicate InUse(h: Heap, p: nat)
    requires |h.lists| == DESC_CNT
    requires forall a :: a in h.arenas && h.arenas[a].Small? ==> h.arenas[a].d < DESC_CNT
  {
    && PageNo(p) in h.arenas
    && var ar := h.arenas[PageNo(p)];
       if ar.Small? then IsBlock(p, ar.d) && p !in h.lists[ar.d] else PageOfs(p) == HEADER
  }

  /** The live blocks are exactly the block positions that are not free, and each is big enough
      for the request it answered. */
  ghost predicate LiveOk(h: Heap)
    requires ArenasOk(h)
  {
    && (forall p :: p in h.live <==> InUse(h, p))
    && (forall p :: p in h.live ==> 0 < h.live[p] <= Capacity(h.arenas[PageNo(p)]))
  }

  ghost predicate Wf(h: Heap, full: set<nat>)
  {
    ArenasOk(h) && ListsOk(h) && CountsOk(h, full) && LiveOk(h)
  }

  // ----- what well-formedness gives

  /** Two blocks of one arena are a whole block apart. */
  lemma BlocksApart(p: nat, q: nat, d: nat)
    requires d < DESC_CNT && IsBlock(p, d) && IsBlock(q, d) && PageNo(p) == PageNo(q) && p < q
    ensures p + BlockSize(d) <= q
  {
    hide BlockSize, PerArena;
    var i, j, b := IndexOf(p, d), IndexOf(q, d), BlockSize(d);
    IndexRoundTrip(p, d);
    IndexRoundTrip(q, d);
    MulLe(j, i, b);
    MulLe(i + 1, j, b);
    assert (i + 1) * b == i * b + b;
  }

  lemma BlockInPage(p: nat, d: nat)
    requires d < DESC_CNT && IsBlock(p, d)
    ensures p + BlockSize(d) <= (PageNo(p) + 1) * PGSIZE
  {
    IndexRoundTrip(p, d);
    BlockRoundTrip(PageNo(p), d, IndexOf(p, d));
  }

  /** Live blocks never overlap, and none touches an arena header. */
  lemma LiveDisjoint(h: Heap, p: nat, q: nat)
    requires Wf(h, {}) && p in h.live && q in h.live && p < q
    ensures p + h.live[p] <= q
    ensures PageOfs(p) >= HEADER
  {
    assert InUse(h, p) && InUse(h, q);
    var a, b := PageNo(p), PageNo(q);
    var ar := h.arenas[a];
    if ar.Small? {
      BlockInPage(p, ar.d);
      if a == b { BlocksApart(p, q, ar.d); }
    }
  }

  /** Every arena has a live block: none is kept wholly free. */
  lemma ArenaHasLive(h: Heap, a: nat) returns (p: nat)
    requires Wf(h, {}) && a in h.arenas
    ensures p in h.live && PageNo(p) == a
  {
    var ar := h.arenas[a];
    if ar.Big? {
      p := a * PGSIZE + HEADER;
      ModUnique(p, PGSIZE, a, HEADER);
      assert InUse(h, p);
    } else {
      var n := PerArena(ar.d);
      var free := FreeIdx(a, ar.d, h.lists[ar.d]);
      RangeSize(0, n);
      assert free != Range(0, n);
      var i :| i in Range(0, n) && i !in free;
      BlockRoundTrip(a, ar.d, i);
      p := Block(a, ar.d, i);
      assert InUse(h, p);
    }
  }

  /** With no live block, malloc holds no page at all: nothing is leaked. */
  lemma NothingLiveNothingHeld(h: Heap)
    requires Wf(h, {}) && h.live == map[]
    ensures h.arenas == map[]
  {
    if h.arenas.Keys != {} {
      var a :| a in h.arenas.Keys;
      var p := ArenaHasLive(h, a);
    }
  }

  // ----- the allocator's four moves

  /** An arena's free set depends only on the list's addresses inside its page. */
  lemma FreeIdxFrame(a: nat, d: nat, s: seq<nat>, t: seq<nat>)
    requires d < DESC_CNT
    requires forall x :: PageNo(x) == a ==> (x in s <==> x in t)
    ensures FreeIdx(a, d, s) == FreeIdx(a, d, t)
  {
    forall i | i in Range(0, PerArena(d)) ensures Block(a, d, i) in s <==> Block(a, d, i) in t {
      BlockRoundTrip(a, d, i);
    }
  }

  /** Adding one block of arena a to the list adds its index. */
  lemma FreeIdxGain(a: nat, d: nat, s: seq<nat>, t: seq<nat>, p: nat)
    requires d < DESC_CNT && IsBlock(p, d) && PageNo(p) == a && p !in s
    requires forall x :: x in t <==> x in s || x == p
    ensures FreeIdx(a, d, t) == FreeIdx(a, d, s) + {IndexOf(p, d)} && IndexOf(p, d) !in FreeIdx(a, d, s)
    ensures |FreeIdx(a, d, t)| == |FreeIdx(a, d, s)| + 1
  {
    IndexRoundTrip(p, d);
    forall i | i in Range(0, PerArena(d))
      ensures Block(a, d, i) in t <==> Block(a, d, i) in s || i == IndexOf(p, d)
    {
      BlockRoundTrip(a, d, i);
    }
  }

  ghost predicate Fresh(h: Heap, a: nat, n: nat)
  {
    forall b :: b in h.arenas ==> b + Pages(h.arenas[b]) <= a || a + n <= b
  }

  /** All blocks of the arena, in index order. */
  function Blocks(a: nat, d: nat, n: nat): seq<nat>
    requires d < DESC_CNT
  {
    seq(n, i requires 0 <= i < n => Block(a, d, i))
  }

  ghost function Carve(h: Heap, a: nat, d: nat): Heap
    requires |h.lists| == DESC_CNT && d < DESC_CNT
  {
    var n := PerArena(d);
    h.(arenas := h.arenas[a := Small(d, n)], lists := h.lists[d := Blocks(a, d, n)])
  }

  lemma BlocksFacts(a: nat, d: nat)
    requires d < DESC_CNT
    ensures var list := Blocks(a, d, PerArena(d));
            && Distinct(list)
            && (forall x: nat :: x in list <==> PageNo(x) == a && IsBlock(x, d))
            && |FreeIdx(a, d, list)| == PerArena(d)
  {
    var n := PerArena(d);
    var list := Blocks(a, d, n);
    forall i: nat | i < n ensures PageNo(list[i]) == a && IsBlock(list[i], d) && IndexOf(list[i], d) == i {
      BlockRoundTrip(a, d, i);
    }
    forall x: nat | PageNo(x) == a && IsBlock(x, d) ensures x in list {
      IndexRoundTrip(x, d);
      assert list[IndexOf(x, d)] == x;
    }
    forall i: nat | i in Range(0, n) ensures Block(a, d, i) in list { assert list[i] == Block(a, d, i); }
    assert FreeIdx(a, d, list) == Range(0, n);
    RangeSize(0, n);
  }

  lemma CarveArenas(h: Heap, a: nat, d: nat)
    requires ArenasOk(h) && d < DESC_CNT && Fresh(h, a, 1)
    ensures ArenasOk(Carve(h, a, d)) && a !in h.arenas
  {}

  lemma CarveLists(h: Heap, a: nat, d: nat)
    requires ArenasOk(h) && ListsOk(h) && d < DESC_CNT && h.lists[d] == [] && Fresh(h, a, 1)
    ensures ArenasOk(Carve(h, a, d)) && ListsOk(Carve(h, a, d))
  {
    CarveArenas(h, a, d);
    BlocksFacts(a, d);
    hide Block, IsBlock, PerArena, BlockSize, Blocks;
  }

  lemma CarveCounts(h: Heap, a: nat, d: nat)
    requires ArenasOk(h) && ListsOk(h) && CountsOk(h, {}) && d < DESC_CNT && h.lists[d] == [] && Fresh(h, a, 1)
    ensures ArenasOk(Carve(h, a, d)) && CountsOk(Carve(h, a, d), {a})
  {
    CarveArenas(h, a, d);
    BlocksFacts(a, d);
    var h' := Carve(h, a, d);
    hide Block, IsBlock, PerArena, BlockSize, Blocks, FreeIdx;
    forall b | b in h.arenas && h.arenas[b].Small? && h.arenas[b].d == d
      ensures FreeIdx(b, d, h'.lists[d]) == FreeIdx(b, d, h.lists[d])
    {
      FreeIdxFrame(b, d, h'.lists[d], h.lists[d]);
    }
  }

  lemma CarveInUse(h: Heap, a: nat, d: nat, p: nat)
    requires ArenasOk(h) && d < DESC_CNT && h.lists[d] == [] && a !in h.arenas && ArenasOk(Carve(h, a, d))
    ensures InUse(Carve(h, a, d), p) <==> InUse(h, p)
  {
    BlocksFacts(a, d);
    hide Block, IsBlock, PerArena, BlockSize, Blocks, FreeIdx, ArenasOk, PageNo;
  }

  lemma CarveLive(h: Heap, a: nat, d: nat)
    requires ArenasOk(h) && LiveOk(h) && d < DESC_CNT && h.lists[d] == [] && Fresh(h, a, 1)
    ensures ArenasOk(Carve(h, a, d)) && LiveOk(Carve(h, a, d))
  {
    CarveArenas(h, a, d);
    hide Block, PerArena, Blocks, Capacity;
    var h' := Carve(h, a, d);
    forall p ensures InUse(h', p) <==> InUse(h, p) { CarveInUse(h, a, d, p); }
    forall p | p in h.live ensures PageNo(p) in h.arenas { GivePages(h, p); }
    hide InUse, PageNo, Fresh;
  }

  /** malloc adds a new arena's blocks to its descriptor's empty list. */
  lemma CarveWf(h: Heap, a: nat, d: nat)
    requires Wf(h, {}) && d < DESC_CNT && h.lists[d] == [] && Fresh(h, a, 1)
    ensures Wf(Carve(h, a, d), {a})
  {
    CarveLists(h, a, d);
    CarveCounts(h, a, d);
    CarveLive(h, a, d);
  }

  // malloc's list_pop_front and the decrement of free_cnt

  /** The arena of the front block is a small-block arena of descriptor d with a free block. */
  ghost predicate Poppable(h: Heap, d: nat, full: set<nat>)
  {
    && ArenasOk(h) && ListsOk(h) && d < DESC_CNT && h.lists[d] != []
    && var a := PageNo(h.lists[d][0]);
       a in h.arenas && h.arenas[a].Small? && h.arenas[a].d == d && h.arenas[a].freeCnt > 0 && full <= {a}
  }

  function Take(h: Heap, d: nat, size: nat): Heap
    requires d < |h.lists| && h.lists[d] != []
    requires PageNo(h.lists[d][0]) in h.arenas && h.arenas[PageNo(h.lists[d][0])].Small? && h.arenas[PageNo(h.lists[d][0])].freeCnt > 0
  {
    var x := h.lists[d][0];
    var a := PageNo(x);
    Heap(h.arenas[a := Small(d, h.arenas[a].freeCnt - 1)], h.lists[d := h.lists[d][1..]], h.live[x := size])
  }

  lemma TakeReady(h: Heap, d: nat, full: set<nat>)
    requires Wf(h, full) && d < DESC_CNT && h.lists[d] != [] && full <= {PageNo(h.lists[d][0])}
    ensures Poppable(h, d, full)
  {
    var x := h.lists[d][0];
    assert x in h.lists[d];
    IndexRoundTrip(x, d);
    hide Block, IsBlock, PerArena, BlockSize, IndexOf;
    assert IndexOf(x, d) in FreeIdx(PageNo(x), d, h.lists[d]);
  }

  lemma TailFacts(s: seq<nat>)
    requires s != [] && Distinct(s)
    ensures Distinct(s[1..]) && s[0] !in s[1..]
    ensures forall x :: x in s <==> x in s[1..] || x == s[0]
  {
    assert s == [s[0]] + s[1..];
  }

  lemma TakeLists(h: Heap, d: nat, size: nat, full: set<nat>)
    requires Poppable(h, d, full)
    ensures ArenasOk(Take(h, d, size)) && ListsOk(Take(h, d, size))
  {
    TailFacts(h.lists[d]);
    hide IsBlock, PerArena, BlockSize, Distinct;
  }

  lemma TakeCounts(h: Heap, d: nat, size: nat, full: set<nat>)
    requires Poppable(h, d, full) && CountsOk(h, full)
    ensures ArenasOk(Take(h, d, size)) && CountsOk(Take(h, d, size), {})
  {
    TakeLists(h, d, size, full);
    var h', x := Take(h, d, size), h.lists[d][0];
    TailFacts(h.lists[d]);
    FreeIdxGain(PageNo(x), d, h'.lists[d], h.lists[d], x);
    FreeIdxBound(PageNo(x), d, h.lists[d]);
    hide Block, IsBlock, PerArena, BlockSize, FreeIdx, IndexOf;
    forall b | b in h.arenas && h.arenas[b].Small? && h.arenas[b].d == d && b != PageNo(x)
      ensures FreeIdx(b, d, h'.lists[d]) == FreeIdx(b, d, h.lists[d])
    {
      FreeIdxFrame(b, d, h'.lists[d], h.lists[d]);
    }
  }

  lemma FreeIdxBound(a: nat, d: nat, s: seq<nat>)
    requires d < DESC_CNT
    ensures |FreeIdx(a, d, s)| <= PerArena(d)
  {
    hide PerArena, BlockSize, Block;
    var all, free := Range(0, PerArena(d)), FreeIdx(a, d, s);
    RangeSize(0, PerArena(d));
    assert free <= all;
    if free != all { SubsetSize(free, all); }
  }

  lemma TakeInUse(h: Heap, d: nat, size: nat, full: set<nat>, p: nat)
    requires Poppable(h, d, full) && ArenasOk(Take(h, d, size))
    ensures InUse(Take(h, d, size), p) <==> InUse(h, p) || p == h.lists[d][0]
    ensures !InUse(h, h.lists[d][0])
  {
    hide Block, IsBlock, PerArena, BlockSize, Distinct;
    TailFacts(h.lists[d]);
    assert h.lists[d][0] in h.lists[d];
  }

  /** Dropping one free block changes no arena's capacity. */
  lemma TakeFits(h: Heap, d: nat, size: nat, p: nat)
    requires ArenasOk(h) && LiveOk(h) && d < DESC_CNT && h.lists[d] != [] && 0 < size <= BlockSize(d)
    requires var a := PageNo(h.lists[d][0]);
             a in h.arenas && h.arenas[a].Small? && h.arenas[a].d == d && h.arenas[a].freeCnt > 0
    requires p in Take(h, d, size).live
    ensures PageNo(p) in Take(h, d, size).arenas
    ensures var ar := Take(h, d, size).arenas[PageNo(p)];
            (ar.Small? ==> ar.d < DESC_CNT) && 0 < Take(h, d, size).live[p] <= Capacity(ar)
  {
    hide BlockSize, IsBlock, PerArena;
    if p != h.lists[d][0] { assert InUse(h, p); }
  }

  lemma TakeLive(h: Heap, d: nat, size: nat, full: set<nat>)
    requires Poppable(h, d, full) && LiveOk(h) && 0 < size <= BlockSize(d)
    ensures ArenasOk(Take(h, d, size)) && LiveOk(Take(h, d, size))
    ensures h.lists[d][0] !in h.live
  {
    TakeLists(h, d, size, full);
    var h', x := Take(h, d, size), h.lists[d][0];
    assert x in h.lists[d];
    TakeInUse(h, d, size, full, x);
    assert h.arenas[PageNo(x)].d == d;
    hide InUse, ListsOk, PerArena, BlockSize, Capacity, Distinct, PageNo, Poppable;
    assert ArenasOk(h) && ArenasOk(h');
    hide ArenasOk;
    forall p: nat ensures p in h'.live <==> InUse(h', p) { TakeInUse(h, d, size, full, p); }
    forall p | p in h'.live ensures PageNo(p) in h'.arenas && 0 < h'.live[p] <= Capacity(h'.arenas[PageNo(p)]) {
      TakeFits(h, d, size, p);
    }
  }

  lemma TakeWf(h: Heap, d: nat, size: nat, full: set<nat>)
    requires Wf(h, full) && Poppable(h, d, full) && 0 < size <= BlockSize(d)
    ensures Wf(Take(h, d, size), {}) && h.lists[d][0] !in h.live
  {
    TakeLists(h, d, size, full);
    TakeCounts(h, d, size, full);
    TakeLive(h, d, size, full);
  }

  // free's list_push_front and the increment of free_cnt

  ghost predicate SmallLive(h: Heap, p: nat)
  {
    ArenasOk(h) && ListsOk(h) && LiveOk(h) && p in h.live
    && InUse(h, p) && h.arenas[PageNo(p)].Small?
  }

  function Give(h: Heap, p: nat): Heap
    requires PageNo(p) in h.arenas && h.arenas[PageNo(p)].Small? && h.arenas[PageNo(p)].d < |h.lists|
  {
    var a := PageNo(p);
    var d := h.arenas[a].d;
    Heap(h.arenas[a := Small(d, h.arenas[a].freeCnt + 1)], h.lists[d := [p] + h.lists[d]], h.live - {p})
  }

  lemma GiveLists(h: Heap, p: nat)
    requires SmallLive(h, p)
    ensures ArenasOk(Give(h, p)) && ListsOk(Give(h, p))
  {
    hide Block, PerArena, BlockSize;
    var d := h.arenas[PageNo(p)].d;
    assert forall x :: x in [p] + h.lists[d] <==> x == p || x in h.lists[d];
  }

  lemma GiveCounts(h: Heap, p: nat)
    requires SmallLive(h, p) && CountsOk(h, {})
    ensures ArenasOk(Give(h, p)) && CountsOk(Give(h, p), {PageNo(p)})
    ensures Give(h, p).arenas[PageNo(p)].freeCnt <= PerArena(h.arenas[PageNo(p)].d)
  {
    GiveLists(h, p);
    var h', a := Give(h, p), PageNo(p);
    var d := h.arenas[a].d;
    FreeIdxGain(a, d, h.lists[d], h'.lists[d], p);
    FreeIdxBound(a, d, h'.lists[d]);
    hide Block, IsBlock, PerArena, BlockSize, FreeIdx, IndexOf;
    forall b | b in h.arenas && h.arenas[b].Small? && h.arenas[b].d == d && b != a
      ensures FreeIdx(b, d, h'.lists[d]) == FreeIdx(b, d, h.lists[d])
    {
      FreeIdxFrame(b, d, h'.lists[d], h.lists[d]);
    }
  }

  lemma GiveLive(h: Heap, p: nat)
    requires SmallLive(h, p)
    ensures ArenasOk(Give(h, p)) && LiveOk(Give(h, p))
  {
    GiveLists(h, p);
    var h' := Give(h, p);
    forall q: nat ensures InUse(h', q) <==> InUse(h, q) && q != p { GiveInUse(h, p, q); }
    forall q | q in h'.live ensures PageNo(q) in h'.arenas && 0 < h'.live[q] <= Capacity(h'.arenas[PageNo(q)]) {
      GiveRoom(h, p, q);
    }
    hide InUse, ListsOk, PageNo, Capacity;
  }

  lemma GiveRoom(h: Heap, p: nat, q: nat)
    requires SmallLive(h, p) && ArenasOk(Give(h, p)) && q in Give(h, p).live
    ensures var h' := Give(h, p);
            PageNo(q) in h'.arenas && 0 < h'.live[q] <= Capacity(h'.arenas[PageNo(q)])
  {
    GivePages(h, q);
    hide InUse, ListsOk, PageNo, BlockSize;
  }

  lemma GivePages(h: Heap, q: nat)
    requires ArenasOk(h) && LiveOk(h) && q in h.live
    ensures PageNo(q) in h.arenas
  {
    assert InUse(h, q);
  }

  lemma GiveInUse(h: Heap, p: nat, q: nat)
    requires SmallLive(h, p) && ArenasOk(Give(h, p))
    ensures InUse(Give(h, p), q) <==> InUse(h, q) && q != p
  {
    hide IsBlock, PerArena, BlockSize, LiveOk;
  }

  lemma GiveWf(h: Heap, p: nat)
    requires Wf(h, {}) && SmallLive(h, p)
    ensures Wf(Give(h, p), {PageNo(p)})
    ensures Give(h, p).arenas[PageNo(p)].freeCnt <= PerArena(h.arenas[PageNo(p)].d)
  {
    GiveLists(h, p);
    GiveCounts(h, p);
    GiveLive(h, p);
  }

  // free's return of a wholly free arena

  ghost function Retire(h: Heap, a: nat, list: seq<nat>): Heap
    requires a in h.arenas && h.arenas[a].Small? && h.arenas[a].d < |h.lists|
  {
    Heap(h.arenas - {a}, h.lists[h.arenas[a].d := list], h.live)
  }

  /** list is h's list for arena a's descriptor without a's blocks, all of which are free. */
  ghost predicate Retirable(h: Heap, a: nat, list: seq<nat>)
  {
    && ArenasOk(h) && ListsOk(h) && a in h.arenas && h.arenas[a].Small?
    && (forall p: nat :: PageNo(p) == a && IsBlock(p, h.arenas[a].d) ==> p in h.lists[h.arenas[a].d])
    && Distinct(list) && (forall x: nat :: x in list <==> x in h.lists[h.arenas[a].d] && PageNo(x) != a)
  }

  /** A count equal to the arena's capacity means that every block is on the list. */
  lemma FullArena(h: Heap, a: nat, p: nat)
    requires Wf(h, {a}) && a in h.arenas && h.arenas[a].Small?
    requires h.arenas[a].freeCnt >= PerArena(h.arenas[a].d)
    requires PageNo(p) == a && IsBlock(p, h.arenas[a].d)
    ensures p in h.lists[h.arenas[a].d]
  {
    var d := h.arenas[a].d;
    IndexRoundTrip(p, d);
    var free := FreeIdx(a, d, h.lists[d]);
    AllIndices(free, PerArena(d));
    assert IndexOf(p, d) in free;
  }

  lemma RetireCounts(h: Heap, a: nat, list: seq<nat>)
    requires Retirable(h, a, list) && CountsOk(h, {a})
    ensures ArenasOk(Retire(h, a, list)) && CountsOk(Retire(h, a, list), {})
  {
    var h', d := Retire(h, a, list), h.arenas[a].d;
    hide Block, IsBlock, PerArena, BlockSize, FreeIdx, IndexOf;
    forall b | b in h'.arenas && h.arenas[b].Small? && h.arenas[b].d == d
      ensures FreeIdx(b, d, h'.lists[d]) == FreeIdx(b, d, h.lists[d])
    {
      FreeIdxFrame(b, d, h'.lists[d], h.lists[d]);
    }
  }

  lemma RetireLists(h: Heap, a: nat, list: seq<nat>)
    requires Retirable(h, a, list)
    ensures ArenasOk(Retire(h, a, list)) && ListsOk(Retire(h, a, list))
  {
    hide Block, IsBlock, PerArena, BlockSize, Distinct;
    assert forall d, x :: 0 <= d < DESC_CNT && d != h.arenas[a].d && x in h.lists[d] ==> PageNo(x) != a;
  }

  lemma RetireLive(h: Heap, a: nat, list: seq<nat>)
    requires Retirable(h, a, list) && LiveOk(h)
    ensures ArenasOk(Retire(h, a, list)) && LiveOk(Retire(h, a, list))
  {
    RetireLists(h, a, list);
    hide Block, IsBlock, PerArena, BlockSize, Distinct;
    var h' := Retire(h, a, list);
    forall p: nat ensures InUse(h', p) <==> InUse(h, p) {}
    forall p | p in h.live ensures PageNo(p) != a { assert InUse(h, p); }
    hide InUse, Capacity;
  }

  lemma RetireWf(h: Heap, a: nat, list: seq<nat>)
    requires Wf(h, {a}) && Retirable(h, a, list)
    ensures Wf(Retire(h, a, list), {})
  {
    RetireLists(h, a, list);
    RetireCounts(h, a, list);
    RetireLive(h, a, list);
  }

  // big blocks

  function BigAddr(a: nat): nat { a * PGSIZE + HEADER }

  lemma BigAddrUnique(p: nat, a: nat)
    ensures PageNo(p) == a && PageOfs(p) == HEADER <==> p == BigAddr(a)
  {
    ModUnique(BigAddr(a), PGSIZE, a, HEADER);
  }

  function AddBig(h: Heap, a: nat, n: nat, size: nat): Heap
  {
    h.(arenas := h.arenas[a := Big(n)], live := h.live[BigAddr(a) := size])
  }

  lemma AddBigArenas(h: Heap, a: nat, n: nat, size: nat)
    requires ArenasOk(h) && Fresh(h, a, n) && n > 0
    ensures a !in h.arenas && ArenasOk(AddBig(h, a, n, size))
  {}

  lemma AddBigLists(h: Heap, a: nat, n: nat, size: nat)
    requires ArenasOk(h) && ListsOk(h) && a !in h.arenas && ArenasOk(AddBig(h, a, n, size))
    ensures ListsOk(AddBig(h, a, n, size))
  {
    hide IsBlock, PerArena, BlockSize, Distinct;
  }

  lemma AddBigCounts(h: Heap, a: nat, n: nat, size: nat)
    requires ArenasOk(h) && CountsOk(h, {}) && a !in h.arenas && ArenasOk(AddBig(h, a, n, size))
    ensures CountsOk(AddBig(h, a, n, size), {})
  {
    hide PerArena, BlockSize, FreeIdx;
  }

  lemma AddBigRest(h: Heap, a: nat, n: nat, size: nat)
    requires Wf(h, {}) && Fresh(h, a, n) && n > 0
    ensures a !in h.arenas
    ensures ArenasOk(AddBig(h, a, n, size)) && ListsOk(AddBig(h, a, n, size)) && CountsOk(AddBig(h, a, n, size), {})
  {
    hide ArenasOk, ListsOk, CountsOk, Fresh, LiveOk, AddBig;
    AddBigArenas(h, a, n, size);
    AddBigLists(h, a, n, size);
    AddBigCounts(h, a, n, size);
  }

  lemma AddBigWf(h: Heap, a: nat, n: nat, size: nat)
    requires Wf(h, {}) && Fresh(h, a, n) && n > 0 && 0 < size <= n * PGSIZE - HEADER
    ensures Wf(AddBig(h, a, n, size), {}) && BigAddr(a) !in h.live
  {
    AddBigRest(h, a, n, size);
    hide ListsOk, CountsOk;
    AddBigLive(h, a, n, size);
  }

  lemma AddBigLive(h: Heap, a: nat, n: nat, size: nat)
    requires ArenasOk(h) && LiveOk(h) && Fresh(h, a, n) && n > 0 && 0 < size <= n * PGSIZE - HEADER
    requires ArenasOk(AddBig(h, a, n, size))
    ensures LiveOk(AddBig(h, a, n, size)) && BigAddr(a) !in h.live
  {
    var h' := AddBig(h, a, n, size);
    BigAddrUnique(BigAddr(a), a);
    AddBigInUse(h, a, n, size, BigAddr(a));
    hide InUse, ArenasOk, PageNo, BigAddr, Fresh;
    forall p: nat ensures p in h'.live <==> InUse(h', p) { AddBigInUse(h, a, n, size, p); }
    forall p | p in h'.live && p != BigAddr(a) ensures PageNo(p) in h.arenas && PageNo(p) != a {
      AddBigInUse(h, a, n, size, p);
    }
  }

  lemma AddBigInUse(h: Heap, a: nat, n: nat, size: nat, p: nat)
    requires ArenasOk(h) && ArenasOk(AddBig(h, a, n, size)) && a !in h.arenas
    ensures InUse(AddBig(h, a, n, size), p) <==> InUse(h, p) || p == BigAddr(a)
    ensures InUse(h, p) ==> PageNo(p) in h.arenas && PageNo(p) != a && p != BigAddr(a)
  {
    hide IsBlock, PerArena, BlockSize, Distinct;
    BigAddrUnique(p, a);
  }

  function DropBig(h: Heap, a: nat): Heap
  {
    Heap(h.arenas - {a}, h.lists, h.live - {BigAddr(a)})
  }

  lemma DropBigRest(h: Heap, a: nat)
    requires Wf(h, {}) && a in h.arenas && h.arenas[a].Big?
    ensures ArenasOk(DropBig(h, a)) && ListsOk(DropBig(h, a)) && CountsOk(DropBig(h, a), {})
  {
    hide IsBlock, PerArena, BlockSize, FreeIdx, Distinct, LiveOk;
  }

  lemma DropBigInUse(h: Heap, a: nat, p: nat)
    requires ArenasOk(h) && ArenasOk(DropBig(h, a)) && a in h.arenas && h.arenas[a].Big?
    ensures InUse(DropBig(h, a), p) <==> InUse(h, p) && p != BigAddr(a)
    ensures InUse(DropBig(h, a), p) ==> PageNo(p) in h.arenas && PageNo(p) != a
  {
    hide IsBlock, PerArena, BlockSize, Distinct;
    BigAddrUnique(p, a);
  }

  lemma DropBigWf(h: Heap, a: nat)
    requires Wf(h, {}) && a in h.arenas && h.arenas[a].Big?
    ensures Wf(DropBig(h, a), {})
  {
    DropBigRest(h, a);
    var h' := DropBig(h, a);
    assert ArenasOk(h) && LiveOk(h);
    hide InUse, ArenasOk, ListsOk, CountsOk, Capacity, PageNo, BigAddr;
    forall p: nat ensures p in h'.live <==> InUse(h', p) { DropBigInUse(h, a, p); }
    forall p | p in h'.live ensures PageNo(p) in h'.arenas { DropBigInUse(h, a, p); }
  }

  // ----- list_remove

  function Remove(s: seq<nat>, x: nat): (r: seq<nat>)
    requires x in s && Distinct(s)
    ensures Distinct(r) && forall y :: y in r <==> y in s && y != x
  {
    if s[0] == x then TailFacts(s); s[1..]
    else
      TailFacts(s);
      var r := [s[0]] + Remove(s[1..], x);
      assert forall y :: y in r <==> y == s[0] || y in Remove(s[1..], x);
      r
  }

  // ----- the allocator

  /** The pages that the arenas occupy. */
  ghost function ArenaPages(arenas: map<nat, Arena>): set<nat>
  {
    set a, q | a in arenas && q in Range(a, Pages(arenas[a])) :: q
  }

  lemma FreshPages(h: Heap, a: nat, n: nat)
    requires ArenasOk(h) && n > 0 && Range(a, n) !! ArenaPages(h.arenas)
    ensures Fresh(h, a, n)
  {
    hide Range;
    forall b | b in h.arenas ensures b + Pages(h.arenas[b]) <= a || a + n <= b {
      assert b in Range(b, Pages(h.arenas[b])) && b in ArenaPages(h.arenas);
      assert b !in Range(a, n);
      assert a in Range(a, n) && a !in ArenaPages(h.arenas);
      assert a !in Range(b, Pages(h.arenas[b]));
    }
  }

  lemma AddedPages(arenas: map<nat, Arena>, a: nat, ar: Arena)
    requires a !in arenas
    ensures ArenaPages(arenas[a := ar]) == ArenaPages(arenas) + Range(a, Pages(ar))
  {
    hide Range, Pages;
    var arenas' := arenas[a := ar];
    forall q | q in ArenaPages(arenas) ensures q in ArenaPages(arenas') {
      var b :| b in arenas && q in Range(b, Pages(arenas[b]));
      assert b in arenas' && q in Range(b, Pages(arenas'[b]));
    }
    forall q | q in Range(a, Pages(ar)) ensures q in ArenaPages(arenas') {
      assert a in arenas' && q in Range(a, Pages(arenas'[a]));
    }
  }

  lemma RangesApart(h: Heap, a: nat, b: nat)
    requires ArenasOk(h) && a in h.arenas && b in h.arenas && a != b
    ensures Range(b, Pages(h.arenas[b])) !! Range(a, Pages(h.arenas[a]))
  {
    hide Range;
    assert a < b || b < a;
  }

  lemma RemovedPages(h: Heap, a: nat)
    requires ArenasOk(h) && a in h.arenas
    ensures ArenaPages(h.arenas - {a}) == ArenaPages(h.arenas) - Range(a, Pages(h.arenas[a]))
    ensures Range(a, Pages(h.arenas[a])) <= ArenaPages(h.arenas)
  {
    hide Range, Pages, ArenasOk;
    var rest := h.arenas - {a};
    AddedPages(rest, a, h.arenas[a]);
    assert rest[a := h.arenas[a]] == h.arenas;
    forall b | b in rest ensures Range(b, Pages(rest[b])) !! Range(a, Pages(h.arenas[a])) {
      RangesApart(h, a, b);
    }
  }

  lemma SamePages(arenas: map<nat, Arena>, a: nat, ar: Arena)
    requires a in arenas && Pages(ar) == Pages(arenas[a])
    ensures ArenaPages(arenas[a := ar]) == ArenaPages(arenas)
  {
    assert forall b :: b in arenas ==> Pages(arenas[a := ar][b]) == Pages(arenas[b]);
    var arenas' := arenas[a := ar];
    forall q | q in ArenaPages(arenas) ensures q in ArenaPages(arenas') {
      var b :| b in arenas && q in Range(b, Pages(arenas[b]));
      assert b in arenas' && q in Range(b, Pages(arenas'[b]));
    }
  }

  /** What malloc needs to know when pages a .. a+n-1 become a big block. */
  lemma BigArena(h: Heap, a: nat, n: nat, size: nat)
    requires Wf(h, {}) && n == DivRoundUp(size + HEADER, PGSIZE) && size > 0
    requires Range(a, n) !! ArenaPages(h.arenas)
    ensures Wf(AddBig(h, a, n, size), {}) && BigAddr(a) !in h.live && a !in h.arenas
    ensures ArenaPages(AddBig(h, a, n, size).arenas) == ArenaPages(h.arenas) + Range(a, n)
  {
    FreshPages(h, a, n);
    AddBigRest(h, a, n, size);
    AddedPages(h.arenas, a, Big(n));
    AddBigWf(h, a, n, size);
  }

  /** What malloc needs to know when page a becomes a small-block arena. */
  lemma SmallArena(h: Heap, a: nat, d: nat)
    requires Wf(h, {}) && d < DESC_CNT && h.lists[d] == []
    requires Range(a, 1) !! ArenaPages(h.arenas)
    ensures Wf(Carve(h, a, d), {a}) && a !in h.arenas
    ensures ArenaPages(Carve(h, a, d).arenas) == ArenaPages(h.arenas) + Range(a, 1)
    ensures Carve(h, a, d).lists[d] != [] && PageNo(Carve(h, a, d).lists[d][0]) == a
  {
    FreshPages(h, a, 1);
    CarveArenas(h, a, d);
    AddedPages(h.arenas, a, Small(d, PerArena(d)));
    CarveWf(h, a, d);
    ArenaHoldsBlocks(d);
    BlockRoundTrip(a, d, 0);
  }

  lemma NotFull(h: Heap, a: nat)
    requires Wf(h, {a}) && a in h.arenas && h.arenas[a].Small?
    requires h.arenas[a].freeCnt < PerArena(h.arenas[a].d)
    ensures Wf(h, {})
  {
    hide PerArena, FreeIdx;
  }

  lemma LiveSmall(h: Heap, p: nat)
    requires Wf(h, {}) && p in h.live && PageNo(p) in h.arenas && h.arenas[PageNo(p)].Small?
    ensures SmallLive(h, p) && h.arenas[PageNo(p)].d < DESC_CNT && IsBlock(p, h.arenas[PageNo(p)].d)
  {
    assert InUse(h, p);
  }

  lemma LiveBig(h: Heap, p: nat)
    requires Wf(h, {}) && p in h.live && PageNo(p) in h.arenas && h.arenas[PageNo(p)].Big?
    ensures ArenasOk(h) && PageOfs(p) == HEADER && p == BigAddr(PageNo(p)) && h.arenas[PageNo(p)].pages > 0
  {
    assert InUse(h, p);
    BigAddrUnique(p, PageNo(p));
  }

  // ----- bytes -----

  /** The contents of memory, by address. */
  type Memory = nat -> byte

  /** Bytes available in a block of the arena. */
  function Room(ar: Arena): int
  {
    if ar.Small? && ar.d >= DESC_CNT then 0 else Capacity(ar)
  }

  /** Address x belongs to live block p, of which its caller may use the whole capacity. */
  ghost predicate Within(h: Heap, p: nat, x: nat)
  {
    p in h.live && PageNo(p) in h.arenas && p <= x < p + Room(h.arenas[PageNo(p)])
  }

  ghost predicate LiveByte(h: Heap, x: nat)
  {
    exists p :: Within(h, p, x)
  }

  /** The blocks live in h are live in h', as large as they were. */
  ghost predicate Grows(h: Heap, h': Heap)
  {
    forall p :: p in h.live ==>
      && p in h'.live && PageNo(p) in h.arenas && PageNo(p) in h'.arenas
      && Alike(h.arenas[PageNo(p)], h'.arenas[PageNo(p)])
  }

  /** Arenas that differ at most in their count of free blocks. */
  predicate Alike(ar: Arena, ar': Arena)
  {
    if ar.Small? then ar'.Small? && ar'.d == ar.d else ar' == ar
  }

  /** The bytes live in h are the same in m and m'. */
  ghost predicate Same(h: Heap, m: Memory, m': Memory)
  {
    forall x: nat :: LiveByte(h, x) ==> m'(x) == m(x)
  }

  /** Writing the bytes of r touches no live one. */
  ghost predicate Quiet(h: Heap, r: nat -> bool)
  {
    forall x: nat :: r(x) ==> !LiveByte(h, x)
  }

  lemma SameBelow(h: Heap, h': Heap, m: Memory, m': Memory)
    requires Grows(h, h') && Same(h', m, m')
    ensures Same(h, m, m')
  {
    forall x: nat | LiveByte(h, x) ensures m'(x) == m(x) {
      var p :| Within(h, p, x);
      assert Within(h', p, x);
    }
  }

  lemma SameThen(h: Heap, m: Memory, m': Memory, m'': Memory)
    requires Same(h, m, m') && Same(h, m', m'')
    ensures Same(h, m, m'')
  {
  }

  lemma GrowsThen(h: Heap, h': Heap, h'': Heap)
    requires Grows(h, h') && Grows(h', h'')
    ensures Grows(h, h'')
  {
  }

  lemma IsBlockHeader(p: nat, d: nat)
    requires d < DESC_CNT && IsBlock(p, d)
    ensures p >= PageNo(p) * PGSIZE + HEADER
  {
  }

  lemma PageSpan(p: nat, a: nat)
    requires PageNo(p) == a && PageOfs(p) == HEADER
    ensures p == a * PGSIZE + HEADER
  {
  }

  /** A live block lies in its arena's pages, after the header. */
  lemma WithinPages(h: Heap, p: nat, x: nat)
    requires ArenasOk(h) && LiveOk(h) && Within(h, p, x)
    ensures var a := PageNo(p);
            a in h.arenas && a * PGSIZE + HEADER <= x < (a + Pages(h.arenas[a])) * PGSIZE
  {
    var a := PageNo(p);
    var ar := h.arenas[a];
    assert InUse(h, p);
    hide BlockSize, PerArena, IsBlock, PageNo, PageOfs;
    if ar.Small? {
      BlockInPage(p, ar.d);
      IsBlockHeader(p, ar.d);
    } else {
      PageSpan(p, a);
      assert (a + ar.pages) * PGSIZE == a * PGSIZE + ar.pages * PGSIZE;
    }
  }

  /** Which page an address of an arena lies in. */
  lemma PageWithin(x: nat, a: nat, n: nat)
    requires a * PGSIZE <= x < (a + n) * PGSIZE
    ensures a <= PageNo(x) < a + n
  {
  }

  /** The owner of a live byte heads the arena that the byte's page belongs to. */
  lemma OwnerArena(h: Heap, p: nat, x: nat)
    requires ArenasOk(h) && LiveOk(h) && Within(h, p, x)
    ensures PageNo(x) in ArenaPages(h.arenas)
    ensures forall a :: a in h.arenas && a <= PageNo(x) < a + Pages(h.arenas[a]) ==> a == PageNo(p)
    ensures x >= PageNo(p) * PGSIZE + HEADER
  {
    var b := PageNo(p);
    WithinPages(h, p, x);
    hide LiveOk, PageNo;
    PageWithin(x, b, Pages(h.arenas[b]));
    InArenaPages(h.arenas, b, PageNo(x));
  }

  lemma OwnerIf(h: Heap, p: nat, x: nat)
    requires ArenasOk(h) && LiveOk(h)
    ensures Within(h, p, x) ==>
              && PageNo(x) in ArenaPages(h.arenas)
              && (forall a :: a in h.arenas && a <= PageNo(x) < a + Pages(h.arenas[a]) ==> a == PageNo(p))
              && x >= PageNo(p) * PGSIZE + HEADER
  {
    if Within(h, p, x) { OwnerArena(h, p, x); }
  }

  lemma InArenaPages(arenas: map<nat, Arena>, a: nat, q: nat)
    requires a in arenas && a <= q < a + Pages(arenas[a])
    ensures q in ArenaPages(arenas)
  {
    assert q in Range(a, Pages(arenas[a]));
  }

  /** No byte outside the arenas' pages is live. */
  lemma PageNotLive(h: Heap, x: nat)
    requires ArenasOk(h) && LiveOk(h) && PageNo(x) !in ArenaPages(h.arenas)
    ensures !LiveByte(h, x)
  {
    hide LiveOk, ArenasOk, PageNo, ArenaPages;
    forall p ensures !Within(h, p, x) { OwnerIf(h, p, x); }
  }

  /** No byte of an arena's header is live. */
  lemma HeaderNotLive(h: Heap, a: nat, x: nat)
    requires ArenasOk(h) && LiveOk(h) && a in h.arenas && a * PGSIZE <= x < a * PGSIZE + HEADER
    ensures !LiveByte(h, x)
  {
    PageWithin(x, a, 1);
    hide LiveOk, PageNo, Within;
    forall p ensures !Within(h, p, x) { OwnerIf(h, p, x); }
  }

  /** Different blocks of one arena share no byte. */
  lemma BlocksDisjoint(p: nat, q: nat, d: nat, x: nat)
    requires d < DESC_CNT && IsBlock(p, d) && IsBlock(q, d) && PageNo(p) == PageNo(q)
    ensures p <= x < p + BlockSize(d) && q <= x < q + BlockSize(d) ==> p == q
  {
    hide BlockSize, IsBlock, PageNo;
    if p < q { BlocksApart(p, q, d); } else if q < p { BlocksApart(q, p, d); }
  }

  /** No byte of a free block is live. */
  lemma FreeNotLive(h: Heap, d: nat, q: nat, x: nat)
    requires ArenasOk(h) && ListsOk(h) && LiveOk(h) && d < DESC_CNT && q in h.lists[d] && q <= x < q + BlockSize(d)
    ensures !LiveByte(h, x)
  {
    var a := PageNo(q);
    assert IsBlock(q, d) && a in h.arenas;
    BlockInPage(q, d);
    IsBlockHeader(q, d);
    PageWithin(x, a, 1);
    hide BlockSize, IsBlock, PageNo, LiveOk, ListsOk;
    forall p | Within(h, p, x) ensures p == q && p !in h.lists[d] {
      OwnerArena(h, p, x);
      LiveNotFree(h, d, p);
      BlocksDisjoint(p, q, d, x);
    }
  }

  lemma LiveNotFree(h: Heap, d: nat, p: nat)
    requires ArenasOk(h) && LiveOk(h) && d < DESC_CNT && p in h.live
    requires PageNo(p) in h.arenas && h.arenas[PageNo(p)].Small? && h.arenas[PageNo(p)].d == d
    ensures IsBlock(p, d) && p !in h.lists[d]
  {
    assert InUse(h, p);
  }

  /** Two live blocks share no byte of their capacity. */
  lemma OneOwner(h: Heap, p: nat, q: nat, x: nat)
    requires ArenasOk(h) && LiveOk(h) && Within(h, p, x) && Within(h, q, x)
    ensures p == q
  {
    assert InUse(h, p) && InUse(h, q);
    OwnerArena(h, p, x);
    OwnerArena(h, q, x);
    WithinPages(h, q, x);
    PageWithin(x, PageNo(q), Pages(h.arenas[PageNo(q)]));
    var a := PageNo(q);
    if h.arenas[a].Small? {
      hide BlockSize, IsBlock, PageNo, PageOfs, LiveOk;
      BlocksDisjoint(p, q, h.arenas[a].d, x);
    } else {
      PageSpan(p, a);
      PageSpan(q, a);
    }
  }

  /** Every live block lies in an arena. */
  lemma LivePages(h: Heap, full: set<nat>)
    requires Wf(h, full)
    ensures forall p :: p in h.live ==> PageNo(p) in h.arenas
  {
    hide IsBlock, PageNo, PageOfs;
    forall p | p in h.live ensures PageNo(p) in h.arenas { assert InUse(h, p); }
  }

  /** New blocks and arenas take no live byte away... */
  lemma TakeGrows(h: Heap, d: nat, size: nat, full: set<nat>)
    requires Poppable(h, d, full) && Wf(h, full)
    ensures Grows(h, Take(h, d, size))
  {
    LivePages(h, full);
    hide Wf, ArenasOk, ListsOk, PageNo, BlockSize;
  }

  lemma CarveGrows(h: Heap, a: nat, d: nat)
    requires Wf(h, {}) && |h.lists| == DESC_CNT && d < DESC_CNT && a !in h.arenas
    ensures Grows(h, Carve(h, a, d))
  {
    LivePages(h, {});
    hide Wf, PageNo, BlockSize;
  }

  lemma AddBigGrows(h: Heap, a: nat, n: nat, size: nat)
    requires Wf(h, {}) && a !in h.arenas
    ensures Grows(h, AddBig(h, a, n, size))
  {
    LivePages(h, {});
    hide Wf, PageNo, BlockSize;
  }

  /** ... and what goes away makes none and moves no other. */
  lemma GiveShrinks(h: Heap, p: nat)
    requires Wf(h, {}) && SmallLive(h, p)
    ensures Grows(Give(h, p), h)
  {
    LivePages(h, {});
    hide Wf, PageNo, BlockSize;
  }

  lemma RetireShrinks(h: Heap, a: nat, list: seq<nat>)
    requires a in h.arenas && h.arenas[a].Small? && h.arenas[a].d < |h.lists|
    requires Wf(Retire(h, a, list), {})
    ensures Grows(Retire(h, a, list), h)
  {
    LivePages(Retire(h, a, list), {});
    hide Wf, PageNo, BlockSize;
  }

  lemma DropBigShrinks(h: Heap, a: nat)
    requires Wf(DropBig(h, a), {})
    ensures Grows(DropBig(h, a), h)
  {
    LivePages(DropBig(h, a), {});
    hide Wf, PageNo, BlockSize;
  }

  // What the calls write: arena headers, the links of blocks on a list, whole freed blocks, and
  // whole pages before they are carved and after they are given back.

  predicate InHeader(a: nat, x: nat) { a * PGSIZE <= x < a * PGSIZE + HEADER }

  predicate InPages(a: nat, n: nat, x: nat) { a <= PageNo(x) < a + n }

  /** The two pointers that link a free block. */
  ghost predicate InLinks(list: seq<nat>, x: nat)
  {
    exists q :: q in list && q <= x < q + 8
  }

  lemma HeaderQuiet(h: Heap, full: set<nat>, a: nat)
    requires Wf(h, full) && a in h.arenas
    ensures Quiet(h, (x: nat) => InHeader(a, x))
  {
    hide ListsOk, CountsOk, LiveByte;
    forall x: nat | InHeader(a, x) ensures !LiveByte(h, x) { HeaderNotLive(h, a, x); }
  }

  lemma PagesQuiet(h: Heap, full: set<nat>, a: nat, n: nat)
    requires Wf(h, full) && Range(a, n) !! ArenaPages(h.arenas)
    ensures Quiet(h, (x: nat) => InPages(a, n, x))
  {
    hide ListsOk, CountsOk, LiveByte, ArenaPages, PageNo;
    forall x: nat | InPages(a, n, x) ensures !LiveByte(h, x) {
      assert PageNo(x) in Range(a, n);
      PageNotLive(h, x);
    }
  }

  lemma LinksQuiet(h: Heap, full: set<nat>, d: nat)
    requires Wf(h, full) && d < DESC_CNT
    ensures Quiet(h, (x: nat) => InLinks(h.lists[d], x))
  {
    BlockSizeIs(d);
    hide CountsOk, LiveByte, BlockSize;
    forall x: nat | InLinks(h.lists[d], x) ensures !LiveByte(h, x) {
      var q :| q in h.lists[d] && q <= x < q + 8;
      FreeNotLive(h, d, q, x);
    }
  }

  lemma BlockQuiet(h: Heap, full: set<nat>, d: nat, p: nat)
    requires Wf(h, full) && d < DESC_CNT && p in h.lists[d]
    ensures Quiet(h, (x: nat) => p <= x < p + BlockSize(d))
  {
    hide CountsOk, LiveByte, BlockSize;
    forall x: nat | p <= x < p + BlockSize(d) ensures !LiveByte(h, x) { FreeNotLive(h, d, p, x); }
  }

  lemma BlockSizeIs(d: nat)
    requires d < DESC_CNT
    ensures BlockSize(d) >= 16
  {
    SizeTable();
  }

  /** memcpy (dst, src, n) of blocks that do not overlap. */
  ghost function Copied(m: Memory, dst: nat, src: nat, n: int): Memory
  {
    (x: nat) => if dst <= x < dst + n then m(src + (x - dst)) else m(x)
  }

  lemma RoomKept(h: Heap, h': Heap, p: nat)
    requires Grows(h, h') && p in h.live
    ensures PageNo(p) in h.arenas && PageNo(p) in h'.arenas
    ensures Room(h'.arenas[PageNo(p)]) == Room(h.arenas[PageNo(p)])
    ensures Alike(h.arenas[PageNo(p)], h'.arenas[PageNo(p)])
  {
  }

  lemma WithinKept(h: Heap, h': Heap, p: nat, x: nat)
    requires Grows(h, h') && Within(h, p, x)
    ensures Within(h', p, x)
  {
  }

  /** Where the smaller heap's bytes stay, so do its blocks' bytes under the larger heap. */
  lemma SameBlocks(h: Heap, h': Heap, m: Memory, m': Memory)
    requires Grows(h, h') && Same(h, m, m')
    ensures forall q, x: nat :: q in h.live && Within(h', q, x) ==> m'(x) == m(x)
  {
    forall q, x: nat | q in h.live && Within(h', q, x) ensures m'(x) == m(x) {
      assert Within(h, q, x);
    }
  }

  function ByteAt(m: Memory, p: nat, i: nat): byte { m(p + i) }

  /** The n bytes from p. */
  ghost function Contents(m: Memory, p: nat, n: int): seq<byte>
  {
    seq(if n > 0 then n else 0, i requires 0 <= i => ByteAt(m, p, i))
  }

  /** A request fits its block, which lies in an arena. */
  lemma LiveFits(h: Heap, p: nat)
    requires Wf(h, {}) && p in h.live
    ensures PageNo(p) in h.arenas && h.live[p] <= Room(h.arenas[PageNo(p)])
  {
    assert InUse(h, p);
    hide BlockSize, IsBlock, PageNo;
  }

  /** Copying to a block that was not live leaves the bytes of those that were. */
  lemma CopyLeaves(h: Heap, h1: Heap, m: Memory, m1: Memory, p: nat, r: nat, n: int, q: nat, x: nat)
    requires Grows(h, h1) && Same(h, m, m1) && Wf(h1, {})
    requires r in h1.live && r != q && q in h.live && Within(h, q, x)
    requires PageNo(r) in h1.arenas && n <= Room(h1.arenas[PageNo(r)])
    ensures Copied(m1, r, p, n)(x) == m(x)
  {
    assert Within(h1, q, x);
    assert LiveByte(h, x);
    hide PageNo, Wf;
    if r <= x < r + n {
      assert Within(h1, r, x);
      WfParts(h1);
      OneOwner(h1, q, r, x);
    }
  }

  lemma WfParts(h: Heap)
    requires Wf(h, {})
    ensures ArenasOk(h) && LiveOk(h)
  {
  }

  /** What realloc copied is still there when the old block is gone. */
  lemma CopyThere(h: Heap, h3: Heap, m: Memory, m1: Memory, m3: Memory, p: nat, r: nat, n: int)
    requires Same(h, m, m1) && Same(h3, Copied(m1, r, p, n), m3)
    requires p in h.live && PageNo(p) in h.arenas && n <= Room(h.arenas[PageNo(p)])
    requires r in h3.live && PageNo(r) in h3.arenas && n <= Room(h3.arenas[PageNo(r)])
    ensures Contents(m3, r, n) == Contents(m, p, n)
  {
    hide PageNo, Same, Room, Copied, Contents;
    forall i: nat | i < n ensures ByteAt(m3, r, i) == ByteAt(m, p, i) { ByteThere(h, h3, m, m1, m3, p, r, n, i); }
    SameContents(m3, r, m, p, n);
  }

  lemma SameContents(m: Memory, p: nat, m': Memory, p': nat, n: int)
    requires forall i: nat :: i < n ==> ByteAt(m, p, i) == ByteAt(m', p', i)
    ensures Contents(m, p, n) == Contents(m', p', n)
  {
  }

  lemma CopiedAt(m: Memory, dst: nat, src: nat, n: int, i: nat)
    requires i < n
    ensures Copied(m, dst, src, n)(dst + i) == m(src + i)
  {
  }

  lemma ByteThere(h: Heap, h3: Heap, m: Memory, m1: Memory, m3: Memory, p: nat, r: nat, n: int, i: nat)
    requires Same(h, m, m1) && Same(h3, Copied(m1, r, p, n), m3)
    requires p in h.live && PageNo(p) in h.arenas && n <= Room(h.arenas[PageNo(p)])
    requires r in h3.live && PageNo(r) in h3.arenas && n <= Room(h3.arenas[PageNo(r)])
    ensures i < n ==> m3(r + i) == m(p + i)
  {
    hide PageNo, Room, Copied;
    if i >= n { return; }
    CopiedAt(m1, r, p, n, i);
    assert Within(h3, r, r + i) && Within(h, p, p + i);
    assert LiveByte(h3, r + i) && LiveByte(h, p + i);
  }

  /** Two steps of malloc. */
  lemma Then(h: Heap, h1: Heap, h2: Heap, m: Memory, m1: Memory, m2: Memory)
    requires Grows(h, h1) && Same(h, m, m1) && Grows(h1, h2) && Same(h1, m1, m2)
    ensures Grows(h, h2) && Same(h, m, m2)
  {
    GrowsThen(h, h1, h2);
    SameBelow(h, h1, m1, m2);
    SameThen(h, m, m1, m2);
  }

  lemma NoChange(h: Heap, m: Memory)
    requires Wf(h, {})
    ensures Grows(h, h) && Same(h, m, m)
  {
    LivePages(h, {});
  }

  /** What malloc needs to know when it takes the front block. */
  lemma TakeAll(h: Heap, d: nat, size: nat, full: set<nat>)
    requires Wf(h, full) && d < DESC_CNT && |h.lists| == DESC_CNT && h.lists[d] != [] && full <= {PageNo(h.lists[d][0])}
    requires 0 < size <= BlockSize(d)
    ensures var b := h.lists[d][0];
            var a := PageNo(b);
            && b !in h.live && a in h.arenas && h.arenas[a].Small? && h.arenas[a].freeCnt > 0
            && ArenaPages(Take(h, d, size).arenas) == ArenaPages(h.arenas)
    ensures Wf(Take(h, d, size), {}) && Grows(h, Take(h, d, size))
  {
    hide Wf, Grows, ArenaPages, BlockSize, ListsOk, ArenasOk, PageNo;
    TakeReady(h, d, full);
    TakeWf(h, d, size, full);
    TakeGrows(h, d, size, full);
    var a := PageNo(h.lists[d][0]);
    SamePages(h.arenas, a, Small(d, h.arenas[a].freeCnt - 1));
  }

  /** A small request fits a page. */
  lemma SmallPages(size: nat, d: nat)
    requires 0 < size && d < DESC_CNT && size <= BlockSize(d)
    ensures PagesFor(1, size + HEADER)
  {
    SizeTable();
  }

  lemma FittingAlike(ar: Arena, ar': Arena, size: nat)
    requires Alike(ar, ar') && Fitting(ar', size)
    ensures Fitting(ar, size)
  {}

  /** The arena a request of that size belongs in: that of the smallest descriptor whose blocks
      are large enough, or else one of just as many pages as it needs. */
  ghost predicate Fitting(ar: Arena, size: nat)
  {
    match ar
    case Small(d, _) => d < DESC_CNT && size <= BlockSize(d) && forall e :: 0 <= e < d ==> BlockSize(e) < size
    case Big(n) => PagesFor(n, size + HEADER) && forall e :: 0 <= e < DESC_CNT ==> BlockSize(e) < size
  }

  class Allocator {
    const palloc: PageAllocator
    var arenas: map<nat, Arena>
    var lists: seq<seq<nat>>
    ghost var live: map<nat, nat>
    ghost var mem: Memory   // the contents of memory

    ghost function State(): Heap
      reads this
    {
      Heap(arenas, lists, live)
    }

    ghost predicate Valid()
      reads this, palloc.kernel.usedMap.bits, palloc.user.usedMap.bits
      ensures Valid() ==> |lists| == DESC_CNT
    {
      && palloc.Valid()
      && Wf(State(), {})
      && ArenaPages(arenas) <= palloc.kernel.Used()
    }

    constructor (palloc: PageAllocator)
      requires palloc.Valid()
      ensures this.palloc == palloc && Valid() && live == map[] && arenas == map[]
    {
      this.palloc := palloc;
      arenas, live := map[], map[];
      lists := seq(DESC_CNT, _ => []);
      new;
      assert ArenaPages(arenas) == {};
    }

    /** Bookkeeping: some new values for the bytes of r, none of which is live. */
    ghost method Scribble(r: nat -> bool)
      requires Quiet(State(), r)
      modifies this`mem
      ensures Same(State(), old(mem), mem)
    {
      var w: Memory := *;
      var was := mem;
      mem := (x: nat) => if r(x) then w(x) else was(x);
    }

    /** The stores of list operations on descriptor d's list, and to arena a's header. */
    ghost method WriteLinks(d: nat, a: nat, full: set<nat>)
      requires Wf(State(), full) && d < DESC_CNT && |lists| == DESC_CNT && a in arenas
      modifies this`mem
      ensures Same(State(), old(mem), mem)
    {
      hide Wf, Same, Quiet, LiveByte;
      ghost var h, m := State(), mem;
      LinksQuiet(h, full, d);
      HeaderQuiet(h, full, a);
      var list := lists[d];
      Scribble((x: nat) => InLinks(list, x));
      ghost var m1 := mem;
      Scribble((x: nat) => InHeader(a, x));
      SameThen(h, m, m1, mem);
    }

    /** The first descriptor whose blocks are large enough; DESC_CNT when none is. */
    method FindDesc(size: nat) returns (d: nat)
      ensures d <= DESC_CNT
      ensures d < DESC_CNT ==> size <= BlockSize(d)
      ensures forall e :: 0 <= e < d ==> BlockSize(e) < size
    {
      d := 0;
      while d < DESC_CNT && BlockSize(d) < size
        invariant d <= DESC_CNT
        invariant forall e :: 0 <= e < d ==> BlockSize(e) < size
      {
        d := d + 1;
      }
    }

    /** Valid but for the arenas in `full`, which may be wholly free. */
    ghost predicate Almost(full: set<nat>)
      reads this, palloc.kernel.usedMap.bits, palloc.user.usedMap.bits
      ensures Almost(full) ==> |lists| == DESC_CNT
    {
      palloc.Valid() && Wf(State(), full) && ArenaPages(arenas) <= palloc.kernel.Used()
    }

    /** Pages in use that are not malloc's. */
    ghost function Others(): set<nat>
      requires palloc.Valid()
      reads this, palloc.kernel.usedMap.bits, palloc.user.usedMap.bits
    {
      palloc.Used() - ArenaPages(arenas)
    }

    /** A request too big for any descriptor gets whole pages. */
    method MallocBig(size: nat) returns (r: Option<nat>)
      requires Valid() && size > 0 && forall e :: 0 <= e < DESC_CNT ==> BlockSize(e) < size
      modifies this, palloc.kernel.usedMap.bits, palloc.user.usedMap.bits
      ensures Valid() && Others() == old(Others())
      ensures r.Some? ==> r.value !in old(live) && live == old(live)[r.value := size]
      ensures r.Some? ==> PageNo(r.value) in arenas && Fitting(arenas[PageNo(r.value)], size)
      ensures r.None? ==> live == old(live) && arenas == old(arenas) && lists == old(lists)
      ensures r.None? ==> palloc.kernel.NoRoom(size + HEADER)
      ensures Grows(old(State()), State()) && Same(old(State()), old(mem), mem)
    {
      hide Grows, Same, Quiet, LiveByte;
      hide PageAllocator.Valid, Pool.Valid, Pool.Used, Wf, Range, ArenaPages, BlockSize, Capacity;
      var pageCnt := DivRoundUp(size + HEADER, PGSIZE);
      assert PagesFor(pageCnt, size + HEADER);
      ghost var h := State();
      var page := palloc.GetMultiple(false, pageCnt);
      NoChange(h, mem);
      if page.None? { return None; }
      var a := page.value;
      BigAddrUnique(BigAddr(a), a);
      BigArena(h, a, pageCnt, size);
      AddBigGrows(h, a, pageCnt, size);
      arenas, live := arenas[a := Big(pageCnt)], live[BigAddr(a) := size];
      assert State() == AddBig(h, a, pageCnt, size);
      HeaderQuiet(State(), {}, a);
      Scribble((x: nat) => InHeader(a, x));
      SameBelow(h, State(), old(mem), mem);
      r := Some(BigAddr(a));
    }

    /** Push arena a's blocks, in order, on the descriptor's empty list. */
    method PushBlocks(a: nat, d: nat)
      requires |lists| == DESC_CNT && d < DESC_CNT && lists[d] == []
      modifies this`lists
      ensures lists == old(lists)[d := Blocks(a, d, PerArena(d))]
    {
      hide PerArena, Block;
      assert Blocks(a, d, 0) == [] && lists[d := []] == lists;
      for i := 0 to PerArena(d)
        invariant lists == old(lists)[d := Blocks(a, d, i)]
      {
        assert Blocks(a, d, i + 1) == Blocks(a, d, i) + [Block(a, d, i)];
        lists := lists[d := lists[d] + [Block(a, d, i)]];
      }
    }

    /** Obtain a page and put all its blocks on the descriptor's empty free list. */
    method NewArena(d: nat) returns (ok: bool, ghost full: set<nat>)
      requires Valid() && d < DESC_CNT && lists[d] == []
      modifies this, palloc.kernel.usedMap.bits, palloc.user.usedMap.bits
      ensures Almost(full) && Others() == old(Others()) && live == old(live)
      ensures !ok ==> full == {} && arenas == old(arenas) && lists == old(lists) && palloc.kernel.NoGroup(1)
      ensures ok ==> lists[d] != [] && full == {PageNo(lists[d][0])}
      ensures Grows(old(State()), State()) && Same(old(State()), old(mem), mem)
    {
      hide Grows, Same, Quiet, LiveByte;
      hide PageAllocator.Valid, Pool.Valid, Pool.Used, Wf, Range, ArenaPages, PerArena, Block, Blocks;
      ghost var h := State();
      var page := palloc.GetMultiple(false, 1);
      NoChange(h, mem);
      if page.None? {
        ok, full := false, {};
      } else {
        var a := page.value;
        SmallArena(h, a, d);
        CarveGrows(h, a, d);
        PagesQuiet(h, {}, a, 1);
        Scribble((x: nat) => InPages(a, 1, x));
        arenas := arenas[a := Small(d, PerArena(d))];
        PushBlocks(a, d);
        assert State() == Carve(h, a, d);
        ok, full := true, {a};
      }
    }

    /** Get a block from the free list and return it. */
    method PopBlock(d: nat, size: nat, ghost full: set<nat>) returns (b: nat)
      requires Wf(State(), full) && d < DESC_CNT && |lists| == DESC_CNT && lists[d] != [] && full <= {PageNo(lists[d][0])}
      requires 0 < size <= BlockSize(d)
      modifies this
      ensures Wf(State(), {}) && ArenaPages(arenas) == old(ArenaPages(arenas))
      ensures b !in old(live) && live == old(live)[b := size]
      ensures PageNo(b) in arenas && arenas[PageNo(b)].Small? && arenas[PageNo(b)].d == d
      ensures Grows(old(State()), State()) && Same(old(State()), old(mem), mem)
    {
      ghost var h := State();
      hide Grows, Same, Quiet, LiveByte, Wf, ArenaPages, BlockSize, PageNo;
      TakeAll(h, d, size, full);
      b := lists[d][0];
      var a := PageNo(b);
      WriteLinks(d, a, full);
      var ar := Small(d, arenas[a].freeCnt - 1);
      lists, arenas, live := lists[d := lists[d][1..]], arenas[a := ar], live[b := size];
      assert State() == Take(h, d, size);
    }

    /** A request that descriptor d's blocks are large enough for. */
    method MallocSmall(size: nat, d: nat) returns (r: Option<nat>)
      requires Valid() && d < DESC_CNT && 0 < size <= BlockSize(d)
      requires forall e :: 0 <= e < d ==> BlockSize(e) < size
      modifies this, palloc.kernel.usedMap.bits, palloc.user.usedMap.bits
      ensures Valid() && Others() == old(Others())
      ensures r.Some? ==> r.value !in old(live) && live == old(live)[r.value := size]
      ensures r.Some? ==> PageNo(r.value) in arenas && Fitting(arenas[PageNo(r.value)], size)
      ensures r.None? ==> live == old(live) && arenas == old(arenas) && lists == old(lists)
      ensures r.None? ==> palloc.kernel.NoRoom(size + HEADER)
      ensures Grows(old(State()), State()) && Same(old(State()), old(mem), mem)
    {
      hide Grows, Same, LiveByte, BlockSize, ArenaPages, PageAllocator.Valid, Pool.Valid, Pool.Used, Wf, PageNo;
      hide PagesFor;
      ghost var h, m := State(), mem;
      r := None;
      SmallPages(size, d);
      var ok, full := FillList(d);
      if ok {
        ghost var h1, m1 := State(), mem;
        var b := PopBlock(d, size, full);
        Then(h, h1, State(), m, m1, mem);
        r := Some(b);
      }
    }

    /** If the free list is empty, create a new arena. */
    method FillList(d: nat) returns (ok: bool, ghost full: set<nat>)
      requires Valid() && d < DESC_CNT
      modifies this, palloc.kernel.usedMap.bits, palloc.user.usedMap.bits
      ensures Almost(full) && Others() == old(Others()) && live == old(live)
      ensures !ok ==> full == {} && arenas == old(arenas) && lists == old(lists) && palloc.kernel.NoGroup(1)
      ensures ok ==> lists[d] != [] && full <= {PageNo(lists[d][0])}
      ensures Grows(old(State()), State()) && Same(old(State()), old(mem), mem)
    {
      NoChange(State(), mem);
      hide Grows, Same, LiveByte, BlockSize, ArenaPages, PageAllocator.Valid, Pool.Valid, Pool.Used, Wf, PageNo;
      ok, full := true, {};
      if lists[d] == [] { ok, full := NewArena(d); }
    }

    /** malloc.  Sizes whose page rounding wraps the 32-bit size_t are excluded. */
    method Malloc(size: nat) returns (r: Option<nat>)
      requires Valid() && size + HEADER + PGSIZE <= 0x1_0000_0000
      modifies this, palloc.kernel.usedMap.bits, palloc.user.usedMap.bits
      ensures Valid() && Others() == old(Others())
      ensures r.Some? ==> size > 0 && r.value !in old(live) && live == old(live)[r.value := size]
      ensures r.Some? ==> PageNo(r.value) in arenas && Fitting(arenas[PageNo(r.value)], size)
      ensures r.None? ==> live == old(live) && arenas == old(arenas) && lists == old(lists)
      ensures r.None? ==> size == 0 || palloc.kernel.NoRoom(size + HEADER)
      ensures Grows(old(State()), State()) && Same(old(State()), old(mem), mem)
    {
      if size == 0 {
        NoChange(State(), mem);
        return None;
      }
      hide *;
      var d := FindDesc(size);
      if d == DESC_CNT { r := MallocBig(size); } else { r := MallocSmall(size, d); }
    }

    /** free.  The caller passes null or a live block; the assertions on the block's alignment
        and the arena's count are proved. */
    method Free(p: Option<nat>)
      requires Valid() && (p.Some? ==> p.value in live)
      modifies this, palloc.kernel.usedMap.bits, palloc.user.usedMap.bits
      ensures Valid() && Others() == old(Others())
      ensures live == if p.Some? then old(live) - {p.value} else old(live)
      ensures Grows(State(), old(State())) && Same(State(), old(mem), mem)
    {
      hide Grows, Same, LiveByte;
      NoChange(State(), mem);
      if p.Some? {
        var a := PageNo(p.value);
        assert InUse(State(), p.value);
        hide PageAllocator.Valid, Pool.Valid, Pool.Used, Wf, ArenaPages;
        if arenas[a].Small? { FreeSmall(p.value); } else { FreeBig(p.value); }
      }
    }

    /** block_size. */
    function BlockBytes(p: nat): int
      reads this
    {
      if PageNo(p) in arenas then Room(arenas[PageNo(p)]) else 0
    }

    /** realloc: on success the old block is exchanged for the new one, which starts with as many
        of its bytes as both hold; on failure it stays live.  No other block's bytes change. */
    method Realloc(oldBlock: Option<nat>, newSize: nat) returns (r: Option<nat>)
      requires Valid() && (oldBlock.Some? ==> oldBlock.value in live)
      requires newSize + HEADER + PGSIZE <= 0x1_0000_0000
      modifies this, palloc.kernel.usedMap.bits, palloc.user.usedMap.bits
      ensures Valid() && Others() == old(Others())
      ensures r.Some? ==>
                && newSize > 0 && r.value !in old(live)
                && live == (if oldBlock.Some? then old(live) - {oldBlock.value} else old(live))[r.value := newSize]
      ensures r.Some? && oldBlock.Some? ==>
                var oldSize := old(BlockBytes(oldBlock.value));
                var n := if newSize < oldSize then newSize else oldSize;
                Contents(mem, r.value, n) == Contents(old(mem), oldBlock.value, n)
      ensures r.Some? ==> PageNo(r.value) in arenas && Fitting(arenas[PageNo(r.value)], newSize)
      ensures r.None? && newSize > 0 ==> live == old(live) && palloc.kernel.NoRoom(newSize + HEADER)
      ensures newSize == 0 ==> r.None? && live == if oldBlock.Some? then old(live) - {oldBlock.value} else old(live)
      ensures forall q, x: nat :: q in live && r != Some(q) && Within(old(State()), q, x) ==> mem(x) == old(mem)(x)
    {
      hide PageAllocator.Valid, Pool.Valid, Pool.Used, Wf, ArenaPages, Grows, Same, Within, PageNo, BlockSize;
      hide Fitting, Alike, Pool.NoRoom;
      ghost var h, m := State(), mem;
      NoChange(h, m);
      if newSize == 0 {
        Free(oldBlock);
        SameBlocks(State(), h, m, mem);
        r := None;
      } else {
        r := Malloc(newSize);
        ghost var h1, m1 := State(), mem;
        SameBlocks(h, h, m, m1);
        if oldBlock.Some? && r.Some? {
          RoomKept(h, h1, oldBlock.value);
          LiveFits(h1, r.value);
          var oldSize := BlockBytes(oldBlock.value);
          var n := if newSize < oldSize then newSize else oldSize;
          mem := Copied(mem, r.value, oldBlock.value, n);
          Free(oldBlock);
          ghost var h3 := State();
          RoomKept(h3, h1, r.value);
          FittingAlike(h3.arenas[PageNo(r.value)], h1.arenas[PageNo(r.value)], newSize);
          CopyThere(h, h3, m, m1, mem, oldBlock.value, r.value, n);
          SameBlocks(h3, h1, Copied(m1, r.value, oldBlock.value, n), mem);
          forall q, x: nat | q in live && r != Some(q) && Within(h, q, x) ensures mem(x) == m(x) {
            CopyLeaves(h, h1, m, m1, oldBlock.value, r.value, n, q, x);
            WithinKept(h, h1, q, x);
          }
        }
      }
    }

    method FreeSmall(p: nat)
      requires Valid() && p in live && PageNo(p) in arenas && arenas[PageNo(p)].Small?
      modifies this, palloc.kernel.usedMap.bits, palloc.user.usedMap.bits
      ensures Valid() && Others() == old(Others()) && live == old(live) - {p}
      ensures Grows(State(), old(State())) && Same(State(), old(mem), mem)
    {
      hide Grows, Same, Quiet, LiveByte;
      hide PageAllocator.Valid, Pool.Valid, Pool.Used, Wf, ArenaPages, SmallLive, PerArena, BlockSize;
      ghost var h, m := State(), mem;
      var a := PageNo(p);
      LiveSmall(h, p);
      GiveWf(h, p);
      var d := arenas[a].d;
      assert IsBlock(p, d);
      hide IsBlock, PageNo;
      var ar := Small(d, arenas[a].freeCnt + 1);
      SamePages(arenas, a, ar);
      lists, arenas, live := lists[d := [p] + lists[d]], arenas[a := ar], live - {p};
      assert State() == Give(h, p);
      GiveShrinks(h, p);
      BlockQuiet(State(), {a}, d, p);
      Scribble((x: nat) => p <= x < p + BlockSize(d));
      ghost var m0 := mem;
      WriteLinks(d, a, {a});
      ghost var h1, m1 := State(), mem;
      SameThen(h1, m, m0, m1);
      if arenas[a].freeCnt >= PerArena(d) {
        assert arenas[a].freeCnt == PerArena(d);
        ReturnArena(a);
        GrowsThen(State(), h1, h);
        SameBelow(State(), h1, m, m1);
        SameThen(State(), m, m1, mem);
      } else {
        NotFull(State(), a);
      }
    }

    method FreeBig(p: nat)
      requires Valid() && p in live && PageNo(p) in arenas && arenas[PageNo(p)].Big?
      modifies this, palloc.kernel.usedMap.bits, palloc.user.usedMap.bits
      ensures Valid() && Others() == old(Others()) && live == old(live) - {p}
      ensures Grows(State(), old(State())) && Same(State(), old(mem), mem)
    {
      hide Grows, Same, Quiet, LiveByte;
      hide PageAllocator.Valid, Pool.Valid, Pool.Used, Wf, ArenaPages, Range, ArenasOk;
      ghost var h := State();
      var a := PageNo(p);
      LiveBig(h, p);
      assert PageOfs(p) == HEADER;
      hide PageNo, PageOfs;
      DropBigWf(h, a);
      RemovedPages(h, a);
      var n := arenas[a].pages;
      arenas, live := arenas - {a}, live - {p};
      assert State() == DropBig(h, a);
      DropBigShrinks(h, a);
      PagesQuiet(State(), {}, a, n);
      Scribble((x: nat) => InPages(a, n, x));
      palloc.FreeMultiple(a, n);
    }

    /** Unlink every block of the wholly free arena a: the list is left without a's blocks. */
    method UnlinkBlocks(a: nat, d: nat)
      requires |lists| == DESC_CNT && d < DESC_CNT && Distinct(lists[d])
      requires forall p: nat :: p in Blocks(a, d, PerArena(d)) ==> p in lists[d]
      modifies this`lists
      ensures |lists| == DESC_CNT && lists == old(lists)[d := lists[d]] && Distinct(lists[d])
      ensures forall x: nat :: x in lists[d] <==> x in old(lists[d]) && x !in Blocks(a, d, PerArena(d))
    {
      hide PerArena, Distinct, Block;
      for i := 0 to PerArena(d)
        invariant |lists| == DESC_CNT && lists == old(lists)[d := lists[d]] && Distinct(lists[d])
        invariant forall x: nat :: x in lists[d] <==> x in old(lists[d]) && x !in Blocks(a, d, i)
      {
        var b := Block(a, d, i);
        assert Blocks(a, d, i + 1) == Blocks(a, d, i) + [b];
        BlockNotYet(a, d, i);
        assert Blocks(a, d, PerArena(d))[i] == b;
        lists := lists[d := Remove(lists[d], b)];
      }
    }

    /** Give a wholly free arena back to the page allocator. */
    method ReturnArena(a: nat)
      requires Almost({a}) && a in arenas && arenas[a].Small? && arenas[a].freeCnt >= PerArena(arenas[a].d)
      modifies this, palloc.kernel.usedMap.bits, palloc.user.usedMap.bits
      ensures Valid() && Others() == old(Others()) && live == old(live) && arenas == old(arenas) - {a}
      ensures Grows(State(), old(State())) && Same(State(), old(mem), mem)
    {
      hide Grows, Same, Quiet, LiveByte;
      hide PageAllocator.Valid, Pool.Valid, Pool.Used, Wf, ArenaPages, ArenasOk, PerArena, Range, Blocks, Distinct;
      ghost var h := State();
      var d := arenas[a].d;
      RetireReady(h, a);
      WriteLinks(d, a, {a});
      ghost var m1 := mem;
      UnlinkBlocks(a, d);
      RetireAll(h, a, lists[d]);
      RetireShrinks(h, a, lists[d]);
      RemovedPages(h, a);
      arenas := arenas - {a};
      assert State() == Retire(h, a, lists[d]);
      PagesQuiet(State(), {}, a, 1);
      Scribble((x: nat) => InPages(a, 1, x));
      SameBelow(State(), h, old(mem), m1);
      SameThen(State(), old(mem), m1, mem);
      palloc.FreeMultiple(a, 1);
    }
  }

  lemma RetireReady(h: Heap, a: nat)
    requires Wf(h, {a}) && a in h.arenas && h.arenas[a].Small? && h.arenas[a].freeCnt >= PerArena(h.arenas[a].d)
    ensures ArenasOk(h) && h.arenas[a].d < DESC_CNT && Distinct(h.lists[h.arenas[a].d])
    ensures var d := h.arenas[a].d; forall p: nat :: p in Blocks(a, d, PerArena(d)) ==> p in h.lists[d]
  {
    var d := h.arenas[a].d;
    BlocksFacts(a, d);
    forall p: nat | PageNo(p) == a && IsBlock(p, d) ensures p in h.lists[d] { FullArena(h, a, p); }
    hide IsBlock, PerArena, Blocks, Distinct;
  }

  lemma RetireAll(h: Heap, a: nat, list: seq<nat>)
    requires Wf(h, {a}) && a in h.arenas && h.arenas[a].Small? && h.arenas[a].freeCnt >= PerArena(h.arenas[a].d)
    requires h.arenas[a].d < DESC_CNT && |h.lists| == DESC_CNT && Distinct(list)
    requires var d := h.arenas[a].d;
             forall x: nat :: x in list <==> x in h.lists[d] && x !in Blocks(a, d, PerArena(d))
    ensures Wf(Retire(h, a, list), {})
  {
    var d := h.arenas[a].d;
    BlocksFacts(a, d);
    forall p: nat | PageNo(p) == a && IsBlock(p, d) ensures p in h.lists[d] { FullArena(h, a, p); }
    hide PerArena, Blocks, Distinct;
    assert Retirable(h, a, list);
    RetireWf(h, a, list);
  }

  lemma BlockNotYet(a: nat, d: nat, i: nat)
    requires d < DESC_CNT && i < PerArena(d)
    ensures Block(a, d, i) !in Blocks(a, d, i)
    ensures PageNo(Block(a, d, i)) == a && IsBlock(Block(a, d, i), d)
  {
    BlocksFacts(a, d);
    BlockRoundTrip(a, d, i);
    hide Block, IsBlock, PerArena;
    var all := Blocks(a, d, PerArena(d));
    assert Blocks(a, d, i) == all[..i] && all[i] == Block(a, d, i);
  }
}
