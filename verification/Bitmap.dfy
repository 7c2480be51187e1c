/** Packed bitmaps (lib/kernel/bitmap.c): an array of 32-bit elements that stands for a
    sequence of booleans.  Every operation is specified on the sequence. */
module Bitmaps {
  import opened Options
  import opened Integers
  import opened Bits

  const ELEM_BITS: nat := 32
  const ELEM_RANGE: nat := Pow2(32)

  function ElemIdx(bit: nat): nat { bit / ELEM_BITS }

  function BitMask(bit: nat): nat { Pow2(bit % ELEM_BITS) }

  function ElemCnt(bitCnt: nat): (r: nat)
    ensures bitCnt <= 32 * r < bitCnt + 32
  {
    (bitCnt + ELEM_BITS - 1) / ELEM_BITS
  }

  function ByteCnt(bitCnt: nat): (r: nat)
    ensures r % 4 == 0 && bitCnt <= 8 * r < bitCnt + 32
  {
    4 * ElemCnt(bitCnt)
  }

  /** The sequence with `cnt` entries from `start` replaced by v. */
  function Fill(s: seq<bool>, start: nat, cnt: nat, v: bool): (r: seq<bool>)
    requires start + cnt <= |s|
    ensures |r| == |s|
    ensures forall i :: 0 <= i < |s| ==> r[i] == if start <= i < start + cnt then v else s[i]
  {
    s[..start] + seq(cnt, _ => v) + s[start + cnt..]
  }

  /** cnt consecutive entries from i, all equal to v. */
  predicate Group(s: seq<bool>, i: nat, cnt: nat, v: bool)
  {
    i + cnt <= |s| && forall k :: i <= k < i + cnt ==> s[k] == v
  }

  /** The numbers, from base on, whose bits are set. */
  ghost function SetBits(base: nat, v: seq<bool>): set<nat>
  {
    set q | q in Range(base, |v|) && v[q - base]
  }

  lemma SetBitsAfterFill(base: nat, v: seq<bool>, i: nat, n: nat, b: bool)
    requires i + n <= |v|
    ensures SetBits(base, Fill(v, i, n, b)) ==
            if b then SetBits(base, v) + Range(base + i, n) else SetBits(base, v) - Range(base + i, n)
  {
    hide Range, Fill;
  }

  lemma GroupIsRange(base: nat, v: seq<bool>, i: nat, n: nat)
    ensures Group(v, i, n, false) ==> Range(base + i, n) !! SetBits(base, v)
    ensures Group(v, i, n, true) ==> Range(base + i, n) <= SetBits(base, v)
  {
    hide Range;
  }

  lemma RangeIsGroup(base: nat, v: seq<bool>, p: nat, n: nat)
    requires n > 0 && Range(p, n) <= Range(base, |v|)
    ensures p >= base && p - base + n <= |v|
    ensures Range(p, n) * SetBits(base, v) == {} ==> Group(v, p - base, n, false)
    ensures Range(p, n) <= SetBits(base, v) ==> Group(v, p - base, n, true)
  {
    hide Range;
    assert p in Range(p, n) && p + n - 1 in Range(p, n);
    if Range(p, n) * SetBits(base, v) == {} {
      forall k | p - base <= k < p - base + n ensures !v[k] {
        assert k + base in Range(p, n) && k + base !in Range(p, n) * SetBits(base, v);
        assert k + base in Range(base, |v|) && k + base !in SetBits(base, v);
      }
    }
    if Range(p, n) <= SetBits(base, v) {
      forall k | p - base <= k < p - base + n ensures v[k] {
        assert k + base in Range(p, n) && k + base in SetBits(base, v);
      }
    }
  }

  class Bitmap {
    const bitCnt: nat
    const bits: array<nat>

    ghost predicate Valid()
      reads bits
    {
      && bits.Length == ElemCnt(bitCnt)
      && forall e :: 0 <= e < bits.Length ==> bits[e] < ELEM_RANGE
    }

    /** The bits as the caller sees them. */
    ghost function View(): (s: seq<bool>)
      requires Valid()
      reads bits
      ensures |s| == bitCnt
    {
      seq(bitCnt, i requires 0 <= i < bitCnt reads bits => Bit(bits[ElemIdx(i)], i % ELEM_BITS))
    }

    constructor (bitCnt: nat)
      ensures this.bitCnt == bitCnt && Valid() && fresh(bits)
      ensures View() == seq(bitCnt, _ => false)
    {
      this.bitCnt := bitCnt;
      this.bits := new nat[ElemCnt(bitCnt)](_ => 0);
      new;
      assert ELEM_RANGE > 0;
      forall i | 0 <= i < bitCnt ensures !View()[i] { BitZero(i % ELEM_BITS); }
    }

    /** bits[idx] |= mask */
    method Mark(idx: nat)
      requires Valid() && idx < bitCnt
      modifies bits
      ensures Valid() && View() == old(View())[idx := true]
    {
      var e, mask := ElemIdx(idx), BitMask(idx);
      ghost var w := bits[e];
      bits[e] := Or(bits[e], mask);
      Pow2Increases(idx % ELEM_BITS, 32);
      OrFits(w, mask, 32);
      forall i | 0 <= i < bitCnt ensures View()[i] == old(View())[idx := true][i] {
        BitOr(w, mask, i % ELEM_BITS);
        BitPow2(idx % ELEM_BITS, i % ELEM_BITS);
      }
    }

    /** bits[idx] &= ~mask */
    method Reset(idx: nat)
      requires Valid() && idx < bitCnt
      modifies bits
      ensures Valid() && View() == old(View())[idx := false]
    {
      var e, mask := ElemIdx(idx), BitMask(idx);
      ghost var w := bits[e];
      bits[e] := AndNot(bits[e], mask);
      AndNotFits(w, mask);
      forall i | 0 <= i < bitCnt ensures View()[i] == old(View())[idx := false][i] {
        BitAndNot(w, mask, i % ELEM_BITS);
        BitPow2(idx % ELEM_BITS, i % ELEM_BITS);
      }
    }

    method Set(idx: nat, value: bool)
      requires Valid() && idx < bitCnt
      modifies bits
      ensures Valid() && View() == old(View())[idx := value]
    {
      if value { Mark(idx); } else { Reset(idx); }
    }

    method Test(idx: nat) returns (value: bool)
      requires Valid() && idx < bitCnt
      ensures value == View()[idx]
    {
      value := And(bits[ElemIdx(idx)], BitMask(idx)) != 0;
      MaskTests(bits[ElemIdx(idx)], idx % ELEM_BITS);
    }

    method SetMultiple(start: nat, cnt: nat, value: bool)
      requires Valid() && start + cnt <= bitCnt
      modifies bits
      ensures Valid() && View() == Fill(old(View()), start, cnt, value)
    {
      for i := 0 to cnt
        invariant Valid() && View() == Fill(old(View()), start, i, value)
      {
        Set(start + i, value);
      }
    }

    method Contains(start: nat, cnt: nat, value: bool) returns (found: bool)
      requires Valid() && start + cnt <= bitCnt
      ensures found <==> exists k :: start <= k < start + cnt && View()[k] == value
    {
      for i := 0 to cnt
        invariant forall k :: start <= k < start + i ==> View()[k] != value
      {
        var b := Test(start + i);
        if b == value { return true; }
      }
      return false;
    }

    method All(start: nat, cnt: nat) returns (all: bool)
      requires Valid() && start + cnt <= bitCnt
      ensures all <==> Group(View(), start, cnt, true)
    {
      var hole := Contains(start, cnt, false);
      all := !hole;
    }

    /** The first group of cnt bits equal to value at or after start, or None (BITMAP_ERROR). */
    method Scan(start: nat, cnt: nat, value: bool) returns (r: Option<nat>)
      requires Valid() && start <= bitCnt
      ensures r.Some? ==> start <= r.value && Group(View(), r.value, cnt, value)
      ensures r.Some? ==> forall j :: start <= j < r.value ==> !Group(View(), j, cnt, value)
      ensures r.None? ==> forall j :: start <= j ==> !Group(View(), j, cnt, value)
    {
      if cnt <= bitCnt {
        var last := bitCnt - cnt;
        var i := start;
        while i <= last
          invariant start <= i
          invariant forall j :: start <= j < i ==> !Group(View(), j, cnt, value)
        {
          var bad := Contains(i, cnt, !value);
          if !bad { return Some(i); }
          i := i + 1;
        }
      }
      return None;
    }

    method ScanAndFlip(start: nat, cnt: nat, value: bool) returns (r: Option<nat>)
      requires Valid() && start <= bitCnt
      modifies bits
      ensures Valid()
      ensures r.None? ==> View() == old(View()) && forall j :: start <= j ==> !Group(View(), j, cnt, value)
      ensures r.Some? ==>
                && start <= r.value && Group(old(View()), r.value, cnt, value)
                && (forall j :: start <= j < r.value ==> !Group(old(View()), j, cnt, value))
                && View() == Fill(old(View()), r.value, cnt, !value)
    {
      r := Scan(start, cnt, value);
      if r.Some? { SetMultiple(r.value, cnt, !value); }
    }
  }
}
