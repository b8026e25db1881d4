/**
  The page bitmap of the physical memory manager (kernel/mm/pmm.c).
  One bit per physical page, a SET bit meaning the page is FREE; page p lives in
  byte p / BMP_PAGES_PER_BYTE at bit p % BMP_PAGES_PER_BYTE of that byte.
  The bytes are seen through PageView as one boolean per page; the class in pmm.dfy
  updates the byte array in place and states its contracts on that view.
*/
module PmmBitmap {

  const PAGE_SIZE: nat := 4096
  const BMP_PAGES_PER_BYTE: nat := 8

  /** Pages needed to hold `bytes` bytes (round-up division, as NUM_PAGES). */
  function NumPages(bytes: nat): nat
  {
    (bytes + 4095) / 4096
  }

  /** `1 << k` for a bit position of one byte. */
  function Mask(k: nat): bv8
    requires k < 8
  {
    if k == 0 then 1 else if k == 1 then 2 else if k == 2 then 4 else if k == 3 then 8
    else if k == 4 then 16 else if k == 5 then 32 else if k == 6 then 64 else 128
  }

  lemma ShiftIsMask(k: nat)
    requires k < 8
    ensures (1 as bv8) << k == Mask(k)
  {
    if k == 0 { } else if k == 1 { } else if k == 2 { } else if k == 3 { }
    else if k == 4 { } else if k == 5 { } else if k == 6 { } else { }
  }

  predicate Bit(b: bv8, k: nat)
    requires k < 8
  {
    b & Mask(k) != 0
  }

  lemma SetBit(b: bv8, k: nat)
    requires k < 8
    ensures forall j :: 0 <= j < 8 ==> Bit(b | Mask(k), j) == (j == k || Bit(b, j))
  {
  }

  lemma ClearBit(b: bv8, k: nat)
    requires k < 8
    ensures forall j :: 0 <= j < 8 ==> Bit(b & !Mask(k), j) == (j != k && Bit(b, j))
  {
  }

  /** Two bytes with the same eight bits are equal. */
  lemma SameBits(a: bv8, b: bv8)
    requires forall j :: 0 <= j < 8 ==> Bit(a, j) == Bit(b, j)
    ensures a == b
  {
    assert Bit(a, 0) == Bit(b, 0);
    assert Bit(a, 1) == Bit(b, 1);
    assert Bit(a, 2) == Bit(b, 2);
    assert Bit(a, 3) == Bit(b, 3);
    assert Bit(a, 4) == Bit(b, 4);
    assert Bit(a, 5) == Bit(b, 5);
    assert Bit(a, 6) == Bit(b, 6);
    assert Bit(a, 7) == Bit(b, 7);
  }

  /** One boolean per page: true when the page's bit is set (the page is free). */
  function PageView(bm: seq<bv8>): (v: seq<bool>)
    ensures |v| == 8 * |bm|
  {
    seq(8 * |bm|, p requires 0 <= p < 8 * |bm| => Bit(bm[p / 8], p % 8))
  }

  /** The byte update of bmp_markused for page p: its bit cleared. */
  function ClearPageBit(bm: seq<bv8>, p: nat): (r: seq<bv8>)
    requires p < 8 * |bm|
    ensures |r| == |bm|
  {
    bm[p / 8 := bm[p / 8] & !Mask(p % 8)]
  }

  /** The byte update of pmm_free for page p: its bit set. */
  function SetPageBit(bm: seq<bv8>, p: nat): (r: seq<bv8>)
    requires p < 8 * |bm|
    ensures |r| == |bm|
  {
    bm[p / 8 := bm[p / 8] | Mask(p % 8)]
  }

  /** Clearing the bit of page p changes page p, and only page p, to used. */
  lemma ClearPageBitView(bm: seq<bv8>, p: nat)
    requires p < 8 * |bm|
    ensures PageView(ClearPageBit(bm, p)) == PageView(bm)[p := false]
  {
    ClearBit(bm[p / 8], p % 8);
  }

  /** Setting the bit of page p changes page p, and only page p, to free. */
  lemma SetPageBitView(bm: seq<bv8>, p: nat)
    requires p < 8 * |bm|
    ensures PageView(SetPageBit(bm, p)) == PageView(bm)[p := true]
  {
    SetBit(bm[p / 8], p % 8);
  }

  /** The byte pmm.c indexes for the page at addr holds that page's bit. */
  lemma ByteOfAddress(addr: nat)
    ensures addr / (PAGE_SIZE * BMP_PAGES_PER_BYTE) == addr / PAGE_SIZE / 8
    ensures (addr / PAGE_SIZE) % BMP_PAGES_PER_BYTE == addr / PAGE_SIZE % 8 < 8
  {
    var p := addr / 4096;
    assert addr == 32768 * (p / 8) + 4096 * (p % 8) + addr % 4096;
  }

  /** Testing the bit pmm.c computes for the page at addr reads that page of the view. */
  lemma TestAddrBit(bm: seq<bv8>, addr: nat)
    requires addr / PAGE_SIZE < 8 * |bm|
    ensures addr / (PAGE_SIZE * BMP_PAGES_PER_BYTE) < |bm| && (addr / PAGE_SIZE) % BMP_PAGES_PER_BYTE < 8
    ensures (bm[addr / (PAGE_SIZE * BMP_PAGES_PER_BYTE)] & ((1 as bv8) << ((addr / PAGE_SIZE) % BMP_PAGES_PER_BYTE)) != 0)
            == PageView(bm)[addr / PAGE_SIZE]
  {
    ByteOfAddress(addr);
    ShiftIsMask(addr / PAGE_SIZE % 8);
  }

  /** Setting the bit pmm_free computes for the page at addr frees that page alone. */
  lemma SetAddrBit(bm: seq<bv8>, addr: nat)
    requires addr / PAGE_SIZE < 8 * |bm|
    ensures addr / (PAGE_SIZE * BMP_PAGES_PER_BYTE) < |bm| && (addr / PAGE_SIZE) % BMP_PAGES_PER_BYTE < 8
    ensures PageView(bm[addr / (PAGE_SIZE * BMP_PAGES_PER_BYTE) :=
              bm[addr / (PAGE_SIZE * BMP_PAGES_PER_BYTE)] | ((1 as bv8) << ((addr / PAGE_SIZE) % BMP_PAGES_PER_BYTE))])
            == PageView(bm)[addr / PAGE_SIZE := true]
  {
    ByteOfAddress(addr);
    ShiftIsMask(addr / PAGE_SIZE % 8);
    SetPageBitView(bm, addr / PAGE_SIZE);
  }

  /** Clearing the bit bmp_markused computes for the page at addr uses that page alone. */
  lemma ClearAddrBit(bm: seq<bv8>, addr: nat)
    requires addr / PAGE_SIZE < 8 * |bm|
    ensures addr / (PAGE_SIZE * BMP_PAGES_PER_BYTE) < |bm| && (addr / PAGE_SIZE) % BMP_PAGES_PER_BYTE < 8
    ensures PageView(bm[addr / (PAGE_SIZE * BMP_PAGES_PER_BYTE) :=
              bm[addr / (PAGE_SIZE * BMP_PAGES_PER_BYTE)] & !((1 as bv8) << ((addr / PAGE_SIZE) % BMP_PAGES_PER_BYTE))])
            == PageView(bm)[addr / PAGE_SIZE := false]
  {
    ByteOfAddress(addr);
    ShiftIsMask(addr / PAGE_SIZE % 8);
    ClearPageBitView(bm, addr / PAGE_SIZE);
  }

  /** Two bitmaps whose pages agree are the same bytes. */
  lemma SameView(a: seq<bv8>, b: seq<bv8>)
    requires |a| == |b| && PageView(a) == PageView(b)
    ensures a == b
  {
    forall j | 0 <= j < |a|
      ensures a[j] == b[j]
    {
      forall k | 0 <= k < 8
        ensures Bit(a[j], k) == Bit(b[j], k)
      {
        var p := 8 * j + k;
        assert p / 8 == j && p % 8 == k;
        assert PageView(a)[p] == PageView(b)[p];
      }
      SameBits(a[j], b[j]);
    }
  }

  /** The n pages from page p0 all exist in a view of |v| pages; an empty range exists
      anywhere, since the loops of pmm.c then touch no byte. */
  predicate InView(v: seq<bool>, p0: nat, n: nat)
  {
    n == 0 || p0 + n <= |v|
  }

  /** The view with pages p0 .. p0+n-1 used and every other page as before. */
  function MarkUsed(v: seq<bool>, p0: nat, n: nat): (r: seq<bool>)
    ensures |r| == |v|
  {
    seq(|v|, q requires 0 <= q < |v| => if p0 <= q < p0 + n then false else v[q])
  }

  /** The view with pages p0 .. p0+n-1 free and every other page as before. */
  function MarkFree(v: seq<bool>, p0: nat, n: nat): (r: seq<bool>)
    ensures |r| == |v|
  {
    seq(|v|, q requires 0 <= q < |v| => if p0 <= q < p0 + n then true else v[q])
  }

  /** Every one of the n pages from p0 is free; true for n = 0. */
  predicate AllFree(v: seq<bool>, p0: nat, n: nat)
    requires InView(v, p0, n)
  {
    forall p :: p0 <= p < p0 + n ==> v[p]
  }

  /** What bmp_isfree answers: the n pages from p0 all lie in the view and are all free
      (true for n = 0 at any p0, where the loop does not run). */
  predicate RunFree(v: seq<bool>, p0: nat, n: nat)
  {
    InView(v, p0, n) && AllFree(v, p0, n)
  }

  /** The page-by-page test of bmp_isfree over the n pages from p0 never reads past the
      view: either the range lies in it, or a used page inside the view ends the test first. */
  predicate ScanInBounds(v: seq<bool>, p0: nat, n: nat)
  {
    InView(v, p0, n) || exists q :: p0 <= q < p0 + n && q < |v| && !v[q]
  }

  /** A range of no pages, wherever it starts: bmp_isfree answers true without reading, and
      bmp_markused and pmm_free change no page. */
  lemma EmptyRange(v: seq<bool>, p0: nat)
    ensures ScanInBounds(v, p0, 0) && RunFree(v, p0, 0)
    ensures MarkUsed(v, p0, 0) == v && MarkFree(v, p0, 0) == v
  {
    assert MarkUsed(v, p0, 0) == v;
    assert MarkFree(v, p0, 0) == v;
  }

  /** While the pages tested so far were free, the next page the test reads is in the view. */
  lemma ScanNext(v: seq<bool>, p0: nat, n: nat, k: nat)
    requires ScanInBounds(v, p0, n) && k < n && RunFree(v, p0, k)
    ensures p0 + k < |v|
  {
    if !InView(v, p0, n) {
      var q :| p0 <= q < p0 + n && q < |v| && !v[q];
      assert p0 + k <= q;
    }
  }

  /** A range of one page is free exactly when that page is. */
  lemma AllFreeOne(v: seq<bool>, p: nat)
    requires p < |v|
    ensures AllFree(v, p, 1) == v[p]
  {
  }

  /** Marking one more page of a range used, as the loop of bmp_markused does. */
  lemma MarkUsedNext(v: seq<bool>, p0: nat, k: nat)
    requires p0 + k < |v|
    ensures MarkUsed(v, p0, k + 1) == MarkUsed(v, p0, k)[p0 + k := false]
  {
  }

  /** Freeing one more page of a range, as the loop of pmm_free does. */
  lemma MarkFreeNext(v: seq<bool>, p0: nat, k: nat)
    requires p0 + k < |v|
    ensures MarkFree(v, p0, k)[p0 + k] == v[p0 + k]
    ensures MarkFree(v, p0, k + 1) == MarkFree(v, p0, k)[p0 + k := true]
  {
  }

  /** How many of the n pages from p0 are free. */
  function FreeIn(v: seq<bool>, p0: nat, n: nat): nat
    requires InView(v, p0, n)
    decreases n
  {
    if n == 0 then 0 else FreeIn(v, p0, n - 1) + (if v[p0 + n - 1] then 1 else 0)
  }

  /** How many pages of the view are free. */
  function FreeCount(v: seq<bool>): nat
    decreases |v|
  {
    if |v| == 0 then 0 else FreeCount(v[..|v| - 1]) + (if v[|v| - 1] then 1 else 0)
  }

  /** Changing one page changes the free count by that page alone. */
  lemma {:induction false} FreeCountUpdate(v: seq<bool>, p: nat, x: bool)
    requires p < |v|
    ensures FreeCount(v[p := x]) + (if v[p] then 1 else 0) == FreeCount(v) + (if x then 1 else 0)
    decreases |v|
  {
    var n := |v|;
    if p == n - 1 {
      assert v[p := x][..n - 1] == v[..n - 1];
    } else {
      assert v[p := x][..n - 1] == v[..n - 1][p := x];
      FreeCountUpdate(v[..n - 1], p, x);
    }
  }

  /** Marking a range used loses exactly the free pages of that range. */
  lemma {:induction false} MarkUsedCount(v: seq<bool>, p0: nat, n: nat)
    requires InView(v, p0, n)
    ensures FreeCount(MarkUsed(v, p0, n)) + FreeIn(v, p0, n) == FreeCount(v)
    decreases n
  {
    if n == 0 {
      assert MarkUsed(v, p0, 0) == v;
    } else {
      var prev := MarkUsed(v, p0, n - 1);
      assert MarkUsed(v, p0, n) == prev[p0 + n - 1 := false];
      MarkUsedCount(v, p0, n - 1);
      FreeCountUpdate(prev, p0 + n - 1, false);
    }
  }

  /** Freeing a range gains exactly the used pages of that range. */
  lemma {:induction false} MarkFreeCount(v: seq<bool>, p0: nat, n: nat)
    requires InView(v, p0, n)
    ensures FreeCount(MarkFree(v, p0, n)) + FreeIn(v, p0, n) == FreeCount(v) + n
    decreases n
  {
    if n == 0 {
      assert MarkFree(v, p0, 0) == v;
    } else {
      var prev := MarkFree(v, p0, n - 1);
      assert MarkFree(v, p0, n) == prev[p0 + n - 1 := true];
      MarkFreeCount(v, p0, n - 1);
      FreeCountUpdate(prev, p0 + n - 1, true);
    }
  }

  /** At most n of n pages are free, and all n exactly when the range is free. */
  lemma {:induction false} FreeInAllFree(v: seq<bool>, p0: nat, n: nat)
    requires InView(v, p0, n)
    ensures FreeIn(v, p0, n) <= n
    ensures FreeIn(v, p0, n) == n <==> AllFree(v, p0, n)
    decreases n
  {
    if n > 0 {
      FreeInAllFree(v, p0, n - 1);
    }
  }

  /** Marking a free range used and then freeing it gives back the same pages,
      and the free count drops by exactly the range's length in between. */
  lemma AllocFreeRoundTrip(v: seq<bool>, p0: nat, n: nat)
    requires InView(v, p0, n) && AllFree(v, p0, n)
    ensures MarkFree(MarkUsed(v, p0, n), p0, n) == v
    ensures FreeCount(MarkUsed(v, p0, n)) + n == FreeCount(v)
  {
    MarkUsedCount(v, p0, n);
    FreeInAllFree(v, p0, n);
  }

  /** Freeing a range that is already free changes nothing. */
  lemma FreeIdempotent(v: seq<bool>, p0: nat, n: nat)
    requires InView(v, p0, n)
    ensures MarkFree(MarkFree(v, p0, n), p0, n) == MarkFree(v, p0, n)
    ensures FreeIn(MarkFree(v, p0, n), p0, n) == n
  {
    FreeInAllFree(MarkFree(v, p0, n), p0, n);
  }

  /** A zeroed bitmap has no free page. */
  lemma {:induction false} NoFreePage(v: seq<bool>)
    requires forall p :: 0 <= p < |v| ==> !v[p]
    ensures FreeCount(v) == 0
    decreases |v|
  {
    if |v| > 0 {
      NoFreePage(v[..|v| - 1]);
    }
  }
}
