/**
  The physical memory manager of kernel/mm/pmm.c: a bitmap with one bit per page
  (a set bit means free) and the memory statistics kept beside it.
*/
module Pmm {
  import opened PmmBitmap
  import opened PmmMap
  import opened Optional

  /** The value of pmm_get's static scan start, which no statement assigns. */
  const LAST_USED_PAGE: nat := 0

  /** The address the loops of pmm.c reach after k pages from addr lies in page addr / PAGE_SIZE + k. */
  lemma PageAfter(addr: nat, k: nat, i: nat)
    requires i == addr + 4096 * k
    ensures i / PAGE_SIZE == addr / PAGE_SIZE + k
  {
  }

  /** A page-aligned address below limit lies in one of the NumPages(limit) pages. */
  lemma BelowLimitPage(i: nat, limit: nat)
    requires i % PAGE_SIZE == 0 && i < limit
    ensures i / PAGE_SIZE < NumPages(limit)
  {
  }

  /** Every test pmm_get makes stays inside the view: the test at page j, made while
      no lower start among the limitPages scanned pages fits, reads no page past the view. */
  predicate GetScansInBounds(v: seq<bool>, limitPages: nat, n: nat)
  {
    forall j :: 0 <= j < limitPages && (forall k :: 0 <= k < j ==> !RunFree(v, k, n)) ==> ScanInBounds(v, j, n)
  }

  /** On a booted allocator a one-page request never tests past the bitmap, and no request
      does once the last page of the bitmap is used. */
  lemma GetScansInBoundsBooted(v: seq<bool>, limitPages: nat, n: nat)
    requires limitPages <= |v|
    requires n <= 1 || (0 < |v| && !v[|v| - 1])
    ensures GetScansInBounds(v, limitPages, n)
  {
    forall j | 0 <= j < limitPages
      ensures ScanInBounds(v, j, n)
    {
      if !InView(v, j, n) {
        assert j <= |v| - 1 < j + n && !v[|v| - 1];
      }
    }
  }

  class PhysMem {
    // Set once by pmm_init and never reassigned.
    const bitmap: array<bv8>
    const totalMem: nat
    const physLimit: nat
    const mmap: seq<MmapEntry>
    // Kept equal to PAGE_SIZE times the number of free pages (Valid).
    var freeMem: nat

    /** The page view of the bitmap. */
    ghost function Pages(): seq<bool>
      reads bitmap
    {
      PageView(bitmap[..])
    }

    /** free_mem is PAGE_SIZE times the number of free pages. */
    ghost predicate Valid()
      reads this, bitmap
    {
      freeMem == 4096 * FreeCount(Pages())
    }

    /** What pmm_init establishes about the map and the bitmap size: the bitmap has a bit
        for every page below phys_limit and every entry of the map ends below phys_limit. */
    ghost predicate Booted()
    {
      bitmap.Length == BitmapBytes(physLimit) && forall e :: e in mmap ==> e.base + e.length <= physLimit
    }

    /** bmp_markused: clears the bits of the numpages pages from addr. */
    method BmpMarkUsed(addr: nat, numpages: nat)
      requires InView(Pages(), addr / PAGE_SIZE, numpages)
      modifies bitmap
      ensures Pages() == MarkUsed(old(Pages()), addr / PAGE_SIZE, numpages)
    {
      var i := addr;
      ghost var k := 0;
      while i < addr + numpages * PAGE_SIZE
        invariant k <= numpages && i == addr + 4096 * k
        invariant Pages() == MarkUsed(old(Pages()), addr / PAGE_SIZE, k)
        decreases numpages - k
      {
        PageAfter(addr, k, i);
        MarkUsedNext(old(Pages()), addr / PAGE_SIZE, k);
        ghost var bm := bitmap[..];
        ClearAddrBit(bm, i);
        bitmap[i / (PAGE_SIZE * BMP_PAGES_PER_BYTE)] :=
          bitmap[i / (PAGE_SIZE * BMP_PAGES_PER_BYTE)] & !((1 as bv8) << ((i / PAGE_SIZE) % BMP_PAGES_PER_BYTE));
        assert bitmap[..] == bm[i / (PAGE_SIZE * BMP_PAGES_PER_BYTE) :=
          bm[i / (PAGE_SIZE * BMP_PAGES_PER_BYTE)] & !((1 as bv8) << ((i / PAGE_SIZE) % BMP_PAGES_PER_BYTE))];
        i := i + PAGE_SIZE;
        k := k + 1;
      }
    }

    /** bmp_isfree: whether every one of the numpages pages from addr is free. The test
        stops at the first used page, so only the pages it reads must lie in the bitmap. */
    method BmpIsFree(addr: nat, numpages: nat) returns (free: bool)
      requires ScanInBounds(Pages(), addr / PAGE_SIZE, numpages)
      ensures free == RunFree(Pages(), addr / PAGE_SIZE, numpages)
    {
      free := true;
      var i := addr;
      ghost var k := 0;
      while i < addr + numpages * PAGE_SIZE
        invariant k <= numpages && i == addr + 4096 * k
        invariant free && RunFree(Pages(), addr / PAGE_SIZE, k)
        decreases numpages - k
      {
        PageAfter(addr, k, i);
        ScanNext(Pages(), addr / PAGE_SIZE, numpages, k);
        TestAddrBit(bitmap[..], i);
        free := bitmap[i / (PAGE_SIZE * BMP_PAGES_PER_BYTE)] & ((1 as bv8) << ((i / PAGE_SIZE) % BMP_PAGES_PER_BYTE)) != 0;
        if !free {
          break;
        }
        i := i + PAGE_SIZE;
        k := k + 1;
      }
    }

    /** The body of pmm_free's loop for the page at addr: free_mem grows by
        PAGE_SIZE when the page was used, and the page's bit is set. */
    method FreePage(addr: nat)
      requires Valid()
      requires addr / PAGE_SIZE < 8 * bitmap.Length
      modifies this`freeMem, bitmap
      ensures Valid()
      ensures Pages() == old(Pages())[addr / PAGE_SIZE := true]
    {
      ghost var v := Pages();
      var wasFree := BmpIsFree(addr, 1);
      AllFreeOne(v, addr / PAGE_SIZE);
      if !wasFree {
        freeMem := freeMem + PAGE_SIZE;
      }
      FreeCountUpdate(v, addr / PAGE_SIZE, true);
      assert Pages() == v;
      BmpSetFree(addr);
    }

    /** The statement of pmm_free's loop that sets the bit of the page at addr. */
    method BmpSetFree(addr: nat)
      requires addr / PAGE_SIZE < 8 * bitmap.Length
      modifies bitmap
      ensures Pages() == old(Pages())[addr / PAGE_SIZE := true]
    {
      SetAddrBit(bitmap[..], addr);
      bitmap[addr / (PAGE_SIZE * BMP_PAGES_PER_BYTE)] :=
        bitmap[addr / (PAGE_SIZE * BMP_PAGES_PER_BYTE)] | ((1 as bv8) << ((addr / PAGE_SIZE) % BMP_PAGES_PER_BYTE));
    }

    /** pmm_free: marks the numpages pages from addr free, adding PAGE_SIZE to
        free_mem for each page that was used. */
    method Free(addr: nat, numpages: nat)
      requires Valid()
      requires InView(Pages(), addr / PAGE_SIZE, numpages)
      modifies this`freeMem, bitmap
      ensures Valid()
      ensures Pages() == MarkFree(old(Pages()), addr / PAGE_SIZE, numpages)
      ensures freeMem == old(freeMem) + PAGE_SIZE * (numpages - FreeIn(old(Pages()), addr / PAGE_SIZE, numpages))
    {
      ghost var p0 := addr / PAGE_SIZE;
      ghost var before := Pages();
      var i := addr;
      ghost var k := 0;
      while i < addr + numpages * PAGE_SIZE
        invariant k <= numpages && i == addr + 4096 * k
        invariant Pages() == MarkFree(before, p0, k)
        invariant Valid()
        decreases numpages - k
      {
        PageAfter(addr, k, i);
        MarkFreeNext(before, p0, k);
        FreePage(i);
        i := i + PAGE_SIZE;
        k := k + 1;
      }
      MarkFreeCount(before, p0, numpages);
    }

    /** pmm_alloc: when every page of the range is free, marks them used and takes
        numpages * PAGE_SIZE off free_mem; otherwise changes nothing. */
    method Alloc(addr: nat, numpages: nat) returns (ok: bool)
      requires Valid()
      requires ScanInBounds(Pages(), addr / PAGE_SIZE, numpages)
      modifies this`freeMem, bitmap
      ensures Valid()
      ensures ok == RunFree(old(Pages()), addr / PAGE_SIZE, numpages)
      ensures ok ==> Pages() == MarkUsed(old(Pages()), addr / PAGE_SIZE, numpages)
                     && freeMem + numpages * PAGE_SIZE == old(freeMem)
      ensures !ok ==> bitmap[..] == old(bitmap[..]) && freeMem == old(freeMem)
    {
      var free := BmpIsFree(addr, numpages);
      if !free {
        return false;
      }
      BmpMarkUsed(addr, numpages);
      MarkUsedCount(old(Pages()), addr / PAGE_SIZE, numpages);
      FreeInAllFree(old(Pages()), addr / PAGE_SIZE, numpages);
      freeMem := freeMem - numpages * PAGE_SIZE;
      return true;
    }

    /** pmm_get: allocates at the lowest page-aligned address below phys_limit
        whose numpages pages are all free; None stands for the kernel panic
        "Out of Physical Memory". */
    method Get(numpages: nat) returns (r: Option<nat>)
      requires Valid()
      requires GetScansInBounds(Pages(), NumPages(physLimit), numpages)
      modifies this`freeMem, bitmap
      ensures Valid()
      ensures r.Some? ==>
        && r.value % PAGE_SIZE == 0 && r.value < physLimit
        && RunFree(old(Pages()), r.value / PAGE_SIZE, numpages)
        && (forall j :: 0 <= j < r.value / PAGE_SIZE ==> !RunFree(old(Pages()), j, numpages))
        && Pages() == MarkUsed(old(Pages()), r.value / PAGE_SIZE, numpages)
        && freeMem + numpages * PAGE_SIZE == old(freeMem)
      ensures r.None? ==>
        && (forall j :: 0 <= j < NumPages(physLimit) ==> !RunFree(old(Pages()), j, numpages))
        && bitmap[..] == old(bitmap[..]) && freeMem == old(freeMem)
    {
      // The scan start `lastusedpage` is a static that nothing assigns: it stays 0,
      // so the first loop covers every page and the second never runs.
      var i := LAST_USED_PAGE;
      while i < physLimit
        invariant i % PAGE_SIZE == 0 && i <= physLimit + PAGE_SIZE
        invariant Valid() && bitmap[..] == old(bitmap[..]) && freeMem == old(freeMem)
        invariant forall j :: 0 <= j < i / PAGE_SIZE ==> !RunFree(old(Pages()), j, numpages)
        decreases physLimit - i
      {
        BelowLimitPage(i, physLimit);
        var ok := Alloc(i, numpages);
        if ok {
          return Some(i);
        }
        i := i + PAGE_SIZE;
      }
      return None;
    }

    /** The statistics loop of pmm_init: phys_limit and total_mem over the map. */
    static method MapStats(memmap: seq<MmapEntry>) returns (limit: nat, total: nat)
      ensures limit == PhysLimitOf(memmap) && total == TotalMemOf(memmap)
    {
      limit := 0;
      total := 0;
      var i := 0;
      while i < |memmap|
        invariant i <= |memmap| && limit == PhysLimitOf(memmap[..i]) && total == TotalMemOf(memmap[..i])
      {
        assert memmap[..i + 1][..i] == memmap[..i];
        var entry := memmap[i];
        if entry.base + entry.length <= LOW_MEMORY_END {
          i := i + 1;
          continue;
        }
        var newLimit := entry.base + entry.length;
        if newLimit > limit {
          limit := newLimit;
        }
        if entry.kind == Usable || entry.kind == BootloaderReclaimable
          || entry.kind == AcpiReclaimable || entry.kind == KernelAndModules {
          total := total + entry.length;
        }
        i := i + 1;
      }
      assert memmap[..|memmap|] == memmap;
    }

    /** The loop of pmm_init that looks for a place to keep the bitmap: the base of the first
        usable entry above 1 MiB at least bmSize bytes long. */
    static method FindBitmapHome(memmap: seq<MmapEntry>, bmSize: nat) returns (home: nat)
      requires FirstHome(memmap, bmSize).Some?
      ensures home == memmap[FirstHome(memmap, bmSize).value].base
    {
      ghost var h := FirstHome(memmap, bmSize).value;
      home := 0;
      var i := 0;
      while i < |memmap|
        invariant i <= h
        invariant forall j :: 0 <= j < i ==> !HomeFor(memmap[j], bmSize)
      {
        var entry := memmap[i];
        if entry.base + entry.length <= LOW_MEMORY_END {
          i := i + 1;
          continue;
        }
        if entry.length >= bmSize && entry.kind == Usable {
          home := entry.base;
          break;
        }
        i := i + 1;
      }
    }

    /** The populate loop of pmm_init: frees the pages of every usable entry above 1 MiB. */
    method PopulateBitmap()
      requires Valid() && Booted()
      modifies this`freeMem, bitmap
      ensures Valid() && Booted()
      ensures Pages() == Released(old(Pages()), mmap, Populate)
    {
      BitmapBytesFits(physLimit);
      var i := 0;
      while i < |mmap|
        invariant i <= |mmap| && Valid()
        invariant Pages() == Released(old(Pages()), mmap[..i], Populate)
      {
        assert mmap[..i + 1][..i] == mmap[..i];
        var entry := mmap[i];
        if entry.base + entry.length <= LOW_MEMORY_END {
          i := i + 1;
          continue;
        }
        if entry.kind == Usable {
          EntryPagesFit(entry, physLimit);
          Free(entry.base, NumPages(entry.length));
        }
        i := i + 1;
      }
      assert mmap[..|mmap|] == mmap;
    }

    /** pmm_init over the memory map: the statistics, the zeroed bitmap of BitmapBytes(phys_limit)
        bytes (see BitmapTooSmallAsWritten for the size as written), the populate pass and the
        marking of the bitmap's own pages, at the base of its home entry, as used. */
    constructor Init(memmap: seq<MmapEntry>)
      requires FirstHome(memmap, BitmapBytes(PhysLimitOf(memmap))).Some?
      ensures mmap == memmap && physLimit == PhysLimitOf(memmap) && totalMem == TotalMemOf(memmap)
      ensures fresh(bitmap) && Valid() && Booted()
      ensures Pages() == BootView(memmap)
    {
      var limit, total := MapStats(memmap);
      var bmSize := BitmapBytes(limit);
      var home := FindBitmapHome(memmap, bmSize);
      bitmap := new bv8[bmSize](_ => 0);
      freeMem := 0;
      totalMem := total;
      physLimit := limit;
      mmap := memmap;
      new;
      ghost var zero := seq(8 * bmSize, _ => false);
      assert Pages() == zero;
      NoFreePage(zero);
      MapBelowLimit(memmap);
      PopulateBitmap();
      HomeIsFree(memmap);
      var _ := Alloc(home, NumPages(bmSize));
    }

    /** pmm_reclaim_bootloader_mem: frees the pages of every bootloader-reclaimable entry. */
    method ReclaimBootloaderMem()
      requires Valid() && Booted()
      modifies this`freeMem, bitmap
      ensures Valid() && Booted()
      ensures Pages() == Released(old(Pages()), mmap, Reclaim)
    {
      BitmapBytesFits(physLimit);
      var i := 0;
      while i < |mmap|
        invariant i <= |mmap| && Valid()
        invariant Pages() == Released(old(Pages()), mmap[..i], Reclaim)
      {
        assert mmap[..i + 1][..i] == mmap[..i];
        var entry := mmap[i];
        if entry.kind == BootloaderReclaimable {
          EntryPagesFit(entry, physLimit);
          Free(entry.base, NumPages(entry.length));
        }
        i := i + 1;
      }
      assert mmap[..|mmap|] == mmap;
    }

    /** A successful pmm_alloc followed by pmm_free of the same range gives back the same
        bitmap bytes and the same free_mem. */
    method AllocThenFree(addr: nat, numpages: nat) returns (ok: bool)
      requires Valid()
      requires ScanInBounds(Pages(), addr / PAGE_SIZE, numpages)
      modifies this`freeMem, bitmap
      ensures Valid()
      ensures ok == RunFree(old(Pages()), addr / PAGE_SIZE, numpages)
      ensures bitmap[..] == old(bitmap[..]) && freeMem == old(freeMem)
    {
      ok := Alloc(addr, numpages);
      if ok {
        AllocFreeRoundTrip(old(Pages()), addr / PAGE_SIZE, numpages);
        FreeInAllFree(Pages(), addr / PAGE_SIZE, numpages);
        Free(addr, numpages);
        SameView(bitmap[..], old(bitmap[..]));
      }
    }
  }
}
