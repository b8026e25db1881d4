/**
  The boot memory map that pmm_init (kernel/mm/pmm.c) reads, and what its loops
  compute from it: the physical limit, the total memory, where the bitmap is
  placed, and which pages the populate and reclaim passes free.
*/
module PmmMap {
  import opened PmmBitmap
  import opened Optional

  /** Memory-map entries that end at or below this address are skipped at boot. */
  const LOW_MEMORY_END: nat := 0x100000

  /** The stivale2 memory-map entry types. */
  datatype MmapType =
    | Usable | Reserved | AcpiReclaimable | AcpiNvs | BadMemory
    | BootloaderReclaimable | KernelAndModules | Framebuffer

  datatype MmapEntry = MmapEntry(base: nat, length: nat, kind: MmapType)

  /** The entry ends above 1 MiB; the loops of pmm_init skip every other entry. */
  predicate AboveLowMemory(e: MmapEntry)
  {
    e.base + e.length > LOW_MEMORY_END
  }

  /** The entry types whose length pmm_init adds to total_mem. */
  predicate CountsTowardTotal(t: MmapType)
  {
    t == Usable || t == BootloaderReclaimable || t == AcpiReclaimable || t == KernelAndModules
  }

  /** phys_limit after pmm_init's statistics loop has seen the entries es, in order. */
  function PhysLimitOf(es: seq<MmapEntry>): (r: nat)
    ensures r == 0 || r > LOW_MEMORY_END
    ensures (forall e :: e in es ==> !AboveLowMemory(e)) ==> r == 0
    decreases |es|
  {
    if |es| == 0 then 0
    else
      var limit := PhysLimitOf(es[..|es| - 1]);
      var e := es[|es| - 1];
      if AboveLowMemory(e) && e.base + e.length > limit then e.base + e.length else limit
  }

  /** total_mem after pmm_init's statistics loop has seen the entries es, in order. */
  function TotalMemOf(es: seq<MmapEntry>): (r: nat)
    ensures (forall e :: e in es ==> !AboveLowMemory(e) || !CountsTowardTotal(e.kind)) ==> r == 0
    decreases |es|
  {
    if |es| == 0 then 0
    else
      var e := es[|es| - 1];
      TotalMemOf(es[..|es| - 1]) + (if AboveLowMemory(e) && CountsTowardTotal(e.kind) then e.length else 0)
  }

  /** phys_limit is the largest end address of an entry above 1 MiB, and 0 when there is none. */
  lemma {:induction false} PhysLimitIsMax(es: seq<MmapEntry>)
    ensures forall e :: e in es && AboveLowMemory(e) ==> e.base + e.length <= PhysLimitOf(es)
    ensures PhysLimitOf(es) == 0 || exists e :: e in es && AboveLowMemory(e) && e.base + e.length == PhysLimitOf(es)
    decreases |es|
  {
    if |es| > 0 {
      var pre := es[..|es| - 1];
      PhysLimitIsMax(pre);
      assert es == pre + [es[|es| - 1]];
      forall e | e in es && AboveLowMemory(e)
        ensures e.base + e.length <= PhysLimitOf(es)
      {
        if e in pre {
        }
      }
      if PhysLimitOf(es) != PhysLimitOf(pre) {
        assert es[|es| - 1] in es;
      } else if PhysLimitOf(es) != 0 {
        var w :| w in pre && AboveLowMemory(w) && w.base + w.length == PhysLimitOf(es);
        assert w in es;
      }
    }
  }

  /** total_mem does not depend on how the map is split: it is the sum over both parts. */
  lemma {:induction false} TotalMemAppend(a: seq<MmapEntry>, b: seq<MmapEntry>)
    ensures TotalMemOf(a + b) == TotalMemOf(a) + TotalMemOf(b)
    decreases |b|
  {
    if |b| == 0 {
      assert a + b == a;
    } else {
      var b' := b[..|b| - 1];
      assert (a + b)[..|a + b| - 1] == a + b';
      TotalMemAppend(a, b');
    }
  }

  /** The bitmap size pmm_init computes as written: phys_limit / (PAGE_SIZE * 8), rounded down. */
  function BitmapBytesAsWritten(limit: nat): nat
  {
    limit / (PAGE_SIZE * BMP_PAGES_PER_BYTE)
  }

  /** The bitmap size that holds one bit for every page below phys_limit. */
  function BitmapBytes(limit: nat): nat
  {
    (NumPages(limit) + 7) / 8
  }

  /** The corrected size has a bit for every page below the limit and no spare byte. */
  lemma BitmapBytesFits(limit: nat)
    ensures NumPages(limit) <= 8 * BitmapBytes(limit)
    ensures BitmapBytes(limit) == 0 || 8 * (BitmapBytes(limit) - 1) < NumPages(limit)
  {
  }

  /** As written, a map with one usable entry [0x100000, 0x101000) gives a limit of 0x101000
      and a 32-byte bitmap: the populate pass frees page 256, whose bit is in byte 32, one
      past the end. The corrected size is 33 bytes and holds it. */
  lemma BitmapTooSmallAsWritten()
    ensures var es := [MmapEntry(0x100000, 0x1000, Usable)];
            var limit := PhysLimitOf(es);
            && limit == 0x101000
            && BitmapBytesAsWritten(limit) == 32
            && es[0].base / PAGE_SIZE == 256
            && (es[0].base / PAGE_SIZE) / BMP_PAGES_PER_BYTE == BitmapBytesAsWritten(limit)
            && BitmapBytes(limit) == 33
  {
    var es := [MmapEntry(0x100000, 0x1000, Usable)];
    assert es[..0] == [];
  }

  /** An entry the bitmap may be placed in: above 1 MiB, usable and at least `size` bytes long. */
  predicate HomeFor(e: MmapEntry, size: nat)
  {
    AboveLowMemory(e) && e.length >= size && e.kind == Usable
  }

  /** The index of the entry pmm_init places the bitmap in: the first one that can hold it. */
  function FirstHome(es: seq<MmapEntry>, size: nat): (r: Option<nat>)
    ensures r.Some? ==> r.value < |es| && HomeFor(es[r.value], size)
                        && forall j :: 0 <= j < r.value ==> !HomeFor(es[j], size)
    ensures r.None? ==> forall j :: 0 <= j < |es| ==> !HomeFor(es[j], size)
    decreases |es|
  {
    if |es| == 0 then None
    else if HomeFor(es[0], size) then Some(0)
    else match FirstHome(es[1..], size)
      case None => None
      case Some(j) => Some(j + 1)
  }

  /** The two passes of pmm.c that free whole entries: pmm_init's populate pass frees the
      usable entries above 1 MiB, pmm_reclaim_bootloader_mem frees the bootloader-reclaimable ones. */
  datatype Pass = Populate | Reclaim

  predicate Selected(pass: Pass, e: MmapEntry)
  {
    match pass
    case Populate => AboveLowMemory(e) && e.kind == Usable
    case Reclaim => e.kind == BootloaderReclaimable
  }

  /** Page p is one of the NUM_PAGES(length) pages that pmm_free(base, NUM_PAGES(length)) frees. */
  predicate Covers(e: MmapEntry, p: nat)
  {
    e.base / PAGE_SIZE <= p < e.base / PAGE_SIZE + NumPages(e.length)
  }

  /** The page view after a pass has freed its entries among es, in order, starting from v. */
  function Released(v: seq<bool>, es: seq<MmapEntry>, pass: Pass): (r: seq<bool>)
    ensures |r| == |v|
    decreases |es|
  {
    if |es| == 0 then v
    else
      var e := es[|es| - 1];
      var pre := Released(v, es[..|es| - 1], pass);
      if Selected(pass, e) then MarkFree(pre, e.base / PAGE_SIZE, NumPages(e.length)) else pre
  }

  /** After a pass, a page is free exactly when it was free before or an entry of the pass covers it. */
  lemma {:induction false} ReleasedPages(v: seq<bool>, es: seq<MmapEntry>, pass: Pass, p: nat)
    requires p < |v|
    ensures Released(v, es, pass)[p] <==> v[p] || exists e :: e in es && Selected(pass, e) && Covers(e, p)
    decreases |es|
  {
    if |es| > 0 {
      var pre := es[..|es| - 1];
      var last := es[|es| - 1];
      ReleasedPages(v, pre, pass, p);
      assert es == pre + [last];
      if Released(v, es, pass)[p] && !v[p] {
        if Released(v, pre, pass)[p] {
          var w :| w in pre && Selected(pass, w) && Covers(w, p);
          assert w in es;
        } else {
          assert last in es;
        }
      }
      if exists e :: e in es && Selected(pass, e) && Covers(e, p) {
        var w :| w in es && Selected(pass, w) && Covers(w, p);
        if w != last {
          assert w in pre;
        }
      }
    }
  }

  /** An entry above 1 MiB, whose end the limit bounds, lies in the pages below the limit. */
  lemma EntryPagesFit(e: MmapEntry, limit: nat)
    requires e.base + e.length <= limit
    ensures e.base / PAGE_SIZE + NumPages(e.length) <= NumPages(limit)
  {
    var a := e.base / 4096;
    var r := e.base % 4096;
    assert e.base == 4096 * a + r;
    assert (e.base + e.length + 4095) / 4096 == a + (r + e.length + 4095) / 4096;
  }

  /** NUM_PAGES grows with the byte count. */
  lemma NumPagesMonotone(a: nat, b: nat)
    requires a <= b
    ensures NumPages(a) <= NumPages(b)
  {
  }

  /** Once the bitmap has a home entry, which ends above 1 MiB, every entry of the map ends
      at or below phys_limit. */
  lemma MapBelowLimit(es: seq<MmapEntry>)
    requires FirstHome(es, BitmapBytes(PhysLimitOf(es))).Some?
    ensures forall e :: e in es ==> e.base + e.length <= PhysLimitOf(es)
  {
    PhysLimitIsMax(es);
    var home := es[FirstHome(es, BitmapBytes(PhysLimitOf(es))).value];
    assert home in es;
  }

  /** The page view pmm_init leaves: the usable entries above 1 MiB freed in map order,
      then the pages of the bitmap itself, at the base of its home entry, marked used. */
  ghost function BootView(es: seq<MmapEntry>): (v: seq<bool>)
    requires FirstHome(es, BitmapBytes(PhysLimitOf(es))).Some?
    ensures |v| == 8 * BitmapBytes(PhysLimitOf(es))
  {
    var size := BitmapBytes(PhysLimitOf(es));
    var home := es[FirstHome(es, size).value];
    MarkUsed(Released(seq(8 * size, _ => false), es, Populate), home.base / PAGE_SIZE, NumPages(size))
  }

  /** The bitmap's own pages are free once the populate pass is over, since its home entry is
      one of the entries that pass frees. */
  lemma {:induction false} HomeIsFree(es: seq<MmapEntry>)
    requires FirstHome(es, BitmapBytes(PhysLimitOf(es))).Some?
    ensures var size := BitmapBytes(PhysLimitOf(es));
            var home := es[FirstHome(es, size).value];
            var v := Released(seq(8 * size, _ => false), es, Populate);
            InView(v, home.base / PAGE_SIZE, NumPages(size)) && AllFree(v, home.base / PAGE_SIZE, NumPages(size))
  {
    var limit := PhysLimitOf(es);
    var size := BitmapBytes(limit);
    var home := es[FirstHome(es, size).value];
    var v := Released(seq(8 * size, _ => false), es, Populate);
    PhysLimitIsMax(es);
    EntryPagesFit(home, limit);
    BitmapBytesFits(limit);
    NumPagesMonotone(size, home.length);
    forall p | home.base / PAGE_SIZE <= p < home.base / PAGE_SIZE + NumPages(size)
      ensures v[p]
    {
      ReleasedPages(seq(8 * size, _ => false), es, Populate, p);
      assert Selected(Populate, home) && Covers(home, p);
    }
  }

  /** After pmm_init a page is free exactly when a usable entry above 1 MiB covers it and it
      is not one of the bitmap's own pages. */
  lemma BootViewPages(es: seq<MmapEntry>, p: nat)
    requires FirstHome(es, BitmapBytes(PhysLimitOf(es))).Some?
    requires p < 8 * BitmapBytes(PhysLimitOf(es))
    ensures var size := BitmapBytes(PhysLimitOf(es));
            var hb := es[FirstHome(es, size).value].base / PAGE_SIZE;
            BootView(es)[p] <==>
              (exists e :: e in es && Selected(Populate, e) && Covers(e, p)) && !(hb <= p < hb + NumPages(size))
  {
    var size := BitmapBytes(PhysLimitOf(es));
    ReleasedPages(seq(8 * size, _ => false), es, Populate, p);
  }
}
