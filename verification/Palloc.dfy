/** The page allocator (threads/palloc.c): two pools of pages, each governed by a bitmap that
    sits at the pool's base.  Pages are named by page number, so an address is 4096 times it. */
module Palloc {
  import opened Options
  import opened Integers
  import opened Bitmaps
  import opened Vaddr

  function DivRoundUp(x: nat, step: nat): (r: nat)
    requires step > 0
    ensures x <= r * step < x + step
  {
    DivDef(x + step - 1, step);
    (x + step - 1) / step
  }

  /** n pages hold the bytes, and no fewer do. */
  predicate PagesFor(n: nat, bytes: nat)
  {
    (n - 1) * PGSIZE < bytes <= n * PGSIZE
  }

  lemma PagesForUnique(n: nat, m: nat, bytes: nat)
    requires PagesFor(n, bytes) && PagesFor(m, bytes)
    ensures n == m
  {}

  /** Pages taken by a pool's own bitmap: struct bitmap is eight bytes. */
  function BitmapPages(pageCnt: nat): (r: nat)
    ensures PagesFor(r, 8 + ByteCnt(pageCnt))
  {
    DivRoundUp(8 + ByteCnt(pageCnt), PGSIZE)
  }

  class Pool {
    const usedMap: Bitmap
    const base: nat

    ghost predicate Valid()
      reads usedMap.bits
    {
      usedMap.Valid() && base > 0
    }

    ghost function Pages(): set<nat> { Range(base, usedMap.bitCnt) }

    /** The pages now handed out. */
    ghost function Used(): (s: set<nat>)
      requires Valid()
      reads usedMap.bits
    {
      SetBits(base, usedMap.View())
    }

    /** Every group of n pages in the pool has a page in use. */
    ghost predicate NoGroup(n: nat)
      requires Valid()
      reads usedMap.bits
    {
      forall p: nat :: Range(p, n) <= Pages() ==> Range(p, n) * Used() != {}
    }

    /** Nor is there a group of just as many pages as the bytes need. */
    ghost predicate NoRoom(bytes: nat)
      requires Valid()
      reads usedMap.bits
    {
      exists n :: PagesFor(n, bytes) && NoGroup(n)
    }

    /** init_pool.  It panics when the bitmap needs more pages than the pool has. */
    constructor (start: nat, pageCnt: nat)
      requires start > 0 && BitmapPages(pageCnt) <= pageCnt
      ensures Valid() && fresh(usedMap) && fresh(usedMap.bits) && Used() == {}
      ensures Pages() == Range(start, pageCnt) - Range(start, BitmapPages(pageCnt))
    {
      var bmPages := BitmapPages(pageCnt);
      usedMap := new Bitmap(pageCnt - bmPages);
      base := start + bmPages;
    }

    /** The pool half of palloc_get_multiple.  A group is found whenever one exists, it was
        wholly free, and exactly it becomes used. */
    method Get(pageCnt: nat) returns (r: Option<nat>)
      requires Valid() && pageCnt > 0
      modifies usedMap.bits
      ensures Valid()
      ensures r.None? ==> Used() == old(Used())
      ensures r.None? ==> NoGroup(pageCnt)
      ensures r.Some? ==>
                && Range(r.value, pageCnt) <= Pages()
                && Range(r.value, pageCnt) !! old(Used())
                && Used() == old(Used()) + Range(r.value, pageCnt)
    {
      hide Range, SetBits, Fill, Group, Bitmap.View;
      ghost var v := usedMap.View();
      var idx := usedMap.ScanAndFlip(0, pageCnt, false);
      if idx.None? {
        forall p: nat | Range(p, pageCnt) <= Pages() ensures Range(p, pageCnt) * Used() != {} {
          RangeIsGroup(base, v, p, pageCnt);
        }
        return None;
      }
      SetBitsAfterFill(base, v, idx.value, pageCnt, true);
      GroupIsRange(base, v, idx.value, pageCnt);
      r := Some(base + idx.value);
    }

    method FromPool(page: nat) returns (b: bool)
      ensures b <==> page in Pages()
    {
      b := page >= base && page < base + usedMap.bitCnt;
    }

    /** The pool half of palloc_free_multiple, with its assertion that every page is in use. */
    method Free(page: nat, pageCnt: nat)
      requires Valid() && pageCnt > 0 && Range(page, pageCnt) <= Used()
      modifies usedMap.bits
      ensures Valid() && Used() == old(Used()) - Range(page, pageCnt)
    {
      hide Fill, Bitmap.View;
      ghost var v := usedMap.View();
      RangeIsGroup(base, v, page, pageCnt);
      hide Range, SetBits, Group;
      var idx := page - base;
      var all := usedMap.All(idx, pageCnt);
      assert all;
      usedMap.SetMultiple(idx, pageCnt, false);
      SetBitsAfterFill(base, v, idx, pageCnt, false);
    }
  }

  lemma RangesApart(start: nat, n: nat, m: nat)
    ensures Range(start, n) !! Range(start + n, m)
  {
  }

  class PageAllocator {
    const kernel: Pool
    const user: Pool

    ghost predicate Valid()
      reads kernel.usedMap.bits, user.usedMap.bits
      ensures Valid() ==> kernel.Valid() && user.Valid() && kernel.usedMap.bits != user.usedMap.bits
    {
      && kernel.Valid() && user.Valid()
      && kernel.usedMap.bits != user.usedMap.bits
      && kernel.Pages() !! user.Pages()
    }

    ghost function Used(): set<nat>
      requires Valid()
      reads kernel.usedMap.bits, user.usedMap.bits
    {
      kernel.Used() + user.Used()
    }

    /** palloc_init: half of the free pages, or the limit if that is less, go to user programs. */
    constructor (freeStart: nat, freePages: nat, userPageLimit: nat)
      requires freeStart > 0
      requires var u := if freePages / 2 > userPageLimit then userPageLimit else freePages / 2;
               BitmapPages(u) <= u && BitmapPages(freePages - u) <= freePages - u
      ensures Valid() && Used() == {}
      ensures fresh(kernel.usedMap.bits) && fresh(user.usedMap.bits)
      ensures var u := if freePages / 2 > userPageLimit then userPageLimit else freePages / 2;
              var k := freePages - u;
              && kernel.Pages() == Range(freeStart, k) - Range(freeStart, BitmapPages(k))
              && user.Pages() == Range(freeStart + k, u) - Range(freeStart + k, BitmapPages(u))
    {
      hide BitmapPages, Range;
      var userPages := freePages / 2;
      if userPages > userPageLimit { userPages := userPageLimit; }
      var kernelPages := freePages - userPages;
      RangesApart(freeStart, kernelPages, userPages);
      var k := new Pool(freeStart, kernelPages);
      var u := new Pool(freeStart + kernelPages, userPages);
      kernel, user := k, u;
    }

    method GetMultiple(fromUser: bool, pageCnt: nat) returns (r: Option<nat>)
      requires Valid()
      modifies kernel.usedMap.bits, user.usedMap.bits
      ensures Valid()
      ensures r.None? ==> kernel.Used() == old(kernel.Used()) && user.Used() == old(user.Used())
      ensures r.None? ==> pageCnt == 0 || (if fromUser then user else kernel).NoGroup(pageCnt)
      ensures r.Some? ==>
                && pageCnt > 0 && r.value > 0
                && Range(r.value, pageCnt) !! old(Used())
                && kernel.Used() == old(kernel.Used()) + (if fromUser then {} else Range(r.value, pageCnt))
                && user.Used() == old(user.Used()) + (if fromUser then Range(r.value, pageCnt) else {})
    {
      if pageCnt == 0 { return None; }
      if fromUser { r := user.Get(pageCnt); } else { r := kernel.Get(pageCnt); }
      if r.Some? { assert r.value in Range(r.value, pageCnt); }
    }

    /** palloc_free_multiple.  A null pointer (page 0) and an empty group are ignored; anything
        else must be pages of one pool, all in use. */
    method FreeMultiple(page: nat, pageCnt: nat)
      requires Valid()
      requires page == 0 || Range(page, pageCnt) <= kernel.Used() || Range(page, pageCnt) <= user.Used()
      modifies kernel.usedMap.bits, user.usedMap.bits
      ensures Valid()
      ensures page > 0 ==> kernel.Used() == old(kernel.Used()) - Range(page, pageCnt)
      ensures page > 0 ==> user.Used() == old(user.Used()) - Range(page, pageCnt)
      ensures page == 0 ==> Used() == old(Used())
      ensures pageCnt > 0 && old(Range(page, pageCnt) <= kernel.Used()) ==> page > 0
    {
      if page == 0 || pageCnt == 0 { return; }
      assert page in Range(page, pageCnt);
      var inKernel := kernel.FromPool(page);
      if inKernel {
        kernel.Free(page, pageCnt);
      } else {
        var inUser := user.FromPool(page);
        assert inUser;
        user.Free(page, pageCnt);
      }
    }
  }
}
