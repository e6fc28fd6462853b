/**
 The physical page pool and the virtual address pool. Both keep a start address, a bitmap
 with one bit a page, and a counter of free pages; `Valid` is the promise that the counter
 is the number of clear bits.
 */
module Pools {
  import opened Wrappers
  import opened BitRuns
  import opened Bitmaps

  const PAGE_SIZE := 4096

  function AlignToPageBase(addr: nat): nat {
    addr - addr % PAGE_SIZE
  }

  lemma PageBase(addr: nat, start: nat)
    requires start <= addr && start % PAGE_SIZE == 0
    ensures var base := AlignToPageBase(addr);
      && base % 4096 == 0 && base <= addr < base + 4096 && start <= base
      && (base - start) / PAGE_SIZE == (addr - start) / PAGE_SIZE
  {
  }

  class PagePool {
    var startAddr: nat
    var freeCount: nat
    var bitmap: Bitmap

    ghost predicate Valid()
      reads this, bitmap, bitmap.bits
    {
      freeCount == CountFree(bitmap.Contents()) && startAddr % PAGE_SIZE == 0
    }

    ghost function Pages(): Bits
      reads this, bitmap, bitmap.bits
    {
      bitmap.Contents()
    }

    constructor (startAddr: nat, bitmap: Bitmap)
      requires startAddr % PAGE_SIZE == 0
      requires forall k :: 0 <= k < |bitmap.Contents()| ==> !bitmap.Contents()[k]
      ensures Valid() && Pages() == bitmap.Contents() && this.startAddr == startAddr && this.bitmap == bitmap
    {
      this.startAddr := startAddr;
      this.bitmap := bitmap;
      freeCount := bitmap.GetCapacity();
      new;
      CountFreeUniform(bitmap.Contents(), false);
    }

    /** The address of the leftmost free run of `count` pages, or 0. */
    method AllocPages(count: nat) returns (addr: nat)
      requires Valid() && count > 0
      modifies this`freeCount, bitmap.bits
      ensures Valid()
      ensures match FindRun(old(Pages()), count)
        case Some(b) => addr == startAddr + b * PAGE_SIZE && b + count <= |old(Pages())|
                        && Pages() == Mark(old(Pages()), b, count, true)
        case None => addr == 0 && Pages() == old(Pages())
    {
      ghost var before := Pages();
      var r := bitmap.Alloc(count);
      match r
      case Some(b) =>
        CountFreeMark(before, b, count, true);
        assert freeCount >= count;
        freeCount := freeCount - count;
        return startAddr + b * PAGE_SIZE;
      case None =>
        return 0;
    }

    /** Marks the page of `vrAddr`, which the caller knows to be free. */
    method AllocPageAtAddr(vrAddr: nat) returns (addr: nat)
      requires Valid() && vrAddr >= startAddr
      requires (vrAddr - startAddr) / PAGE_SIZE < |Pages()| && !Pages()[(vrAddr - startAddr) / PAGE_SIZE]
      modifies this`freeCount, bitmap.bits
      ensures Valid() && addr == AlignToPageBase(vrAddr) && addr % 4096 == 0 && addr <= vrAddr < addr + 4096
      ensures Pages() == old(Pages())[(vrAddr - startAddr) / PAGE_SIZE := true]
    {
      addr := AlignToPageBase(vrAddr);
      PageBase(vrAddr, startAddr);
      hide AlignToPageBase, CountFree;
      var idx := (addr - startAddr) / PAGE_SIZE;
      CountFreeMark(Pages(), idx, 1, true);
      bitmap.ForceAlloc(idx, 1);
      assert freeCount >= 1;
      freeCount := freeCount - 1;
    }

    /** Returns `count` pages; only allocated pages may be returned. */
    method FreePages(base: nat, count: nat)
      requires Valid() && count > 0
      requires base >= startAddr && base % PAGE_SIZE == 0
      requires IsUsedRun(Pages(), (base - startAddr) / PAGE_SIZE, count)
      modifies this`freeCount, bitmap.bits
      ensures Valid()
      ensures Pages() == Mark(old(Pages()), (base - startAddr) / PAGE_SIZE, count, false)
    {
      var idx := (base - startAddr) / PAGE_SIZE;
      ghost var before := Pages();
      CountFreeMark(before, idx, count, false);
      bitmap.Reset(idx, count);
      freeCount := freeCount + count;
    }
  }
}
