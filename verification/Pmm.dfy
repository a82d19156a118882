/** The physical page allocator (pmm.c): a bitmap with one bit a page, a rover and a counter. */
module Pmm {
  import opened Options
  import opened Words
  import HeapBlocks

  const MAX_PAGES: nat := 0x10_0000
  const BITMAP_SIZE: nat := 0x2_0000
  const LOW_MEMORY_CUTOFF: nat := 0x10_0000
  const BOOT_INFO_VERSION_V2: nat := 2
  const E820_USABLE: nat := 1

  // ---------- one byte of the bitmap ----------

  /** `1 << k`. */
  function Mask(k: nat): bv8
    requires k < 8
  {
    if k == 0 then 1 else if k == 1 then 2 else if k == 2 then 4 else if k == 3 then 8
    else if k == 4 then 16 else if k == 5 then 32 else if k == 6 then 64 else 128
  }

  lemma MaskBits(x: bv8, p: nat, q: nat)
    requires p < 8 && q < 8
    ensures (x | Mask(p)) & Mask(q) != 0 <==> p == q || x & Mask(q) != 0
    ensures (x & !Mask(p)) & Mask(q) != 0 <==> p != q && x & Mask(q) != 0
  {
  }

  predicate Bit(s: seq<bv8>, i: nat)
    requires i / 8 < |s|
  {
    s[i / 8] & Mask(i % 8) != 0
  }

  /** The pages whose bit is clear. */
  ghost function ClearBits(s: seq<bv8>): set<nat>
    requires |s| == BITMAP_SIZE
  {
    set i: nat | 0 <= i < MAX_PAGES && !Bit(s, i)
  }

  lemma SetBitAt(s: seq<bv8>, i: nat, j: nat)
    requires i / 8 < |s| && j / 8 < |s|
    ensures Bit(s[i / 8 := s[i / 8] | Mask(i % 8)], j) <==> j == i || Bit(s, j)
  {
    if i / 8 == j / 8 {
      MaskBits(s[i / 8], i % 8, j % 8);
    }
  }

  lemma ClearBitAt(s: seq<bv8>, i: nat, j: nat)
    requires i / 8 < |s| && j / 8 < |s|
    ensures Bit(s[i / 8 := s[i / 8] & !Mask(i % 8)], j) <==> j != i && Bit(s, j)
  {
    if i / 8 == j / 8 {
      MaskBits(s[i / 8], i % 8, j % 8);
    }
  }

  /** Writing one bit of one byte moves one page in or out of the free set and no other. */
  lemma SetBit(s: seq<bv8>, i: nat)
    requires |s| == BITMAP_SIZE && i < MAX_PAGES
    ensures ClearBits(s[i / 8 := s[i / 8] | Mask(i % 8)]) == ClearBits(s) - {i}
  {
    forall j: nat | j < MAX_PAGES {
      SetBitAt(s, i, j);
    }
  }

  lemma ClearBit(s: seq<bv8>, i: nat)
    requires |s| == BITMAP_SIZE && i < MAX_PAGES
    ensures ClearBits(s[i / 8 := s[i / 8] & !Mask(i % 8)]) == ClearBits(s) + {i}
  {
    forall j: nat | j < MAX_PAGES {
      ClearBitAt(s, i, j);
    }
  }

  // ---------- the boot memory map ----------

  datatype Region = Region(base: Word, length: Word, kind: nat)

  datatype BootInfo = BootInfo(version: nat, count: nat, capacity: nat, regions: seq<Region>)

  predicate RangeOverlaps(startA: nat, endA: nat, startB: nat, endB: nat) {
    !(endA <= startB || endB <= startA)
  }

  /** Low memory, the kernel image, the back buffer, the GPU surface and the heap arena.
      The end of the page is computed in 64 bits. */
  predicate PageIsReserved(addr: nat, kernelStart: nat, kernelEnd: nat) {
    var end := (addr + PAGE_SIZE) % U64;
    || addr < LOW_MEMORY_CUTOFF
    || RangeOverlaps(addr, end, AlignDown(kernelStart, PAGE_SIZE), AlignUp(kernelEnd, PAGE_SIZE))
    || RangeOverlaps(addr, end, 0x0100_0000, 0x0180_0000)
    || RangeOverlaps(addr, end, 0x0180_0000, 0x0200_0000)
    || RangeOverlaps(addr, end, 0x0200_0000, 0x0A00_0000)
  }

  function RegionStart(r: Region): nat {
    AlignUp(r.base, PAGE_SIZE)
  }

  /** The sum wraps in 64 bits. */
  function RegionEnd(r: Region): nat {
    AlignDown((r.base + r.length) % U64, PAGE_SIZE)
  }

  /** The pages that lie wholly inside a usable region and below the supported limit. */
  ghost function RegionPages(r: Region): set<nat> {
    if r.kind != E820_USABLE || r.length < PAGE_SIZE then {}
    else set i: nat | i < MAX_PAGES
              && RegionStart(r) <= i * PAGE_SIZE < RegionEnd(r)
  }

  ghost function UsablePages(regions: seq<Region>, ks: nat, ke: nat): set<nat> {
    if |regions| == 0 then {}
    else UsablePages(regions[..|regions| - 1], ks, ke) + UnreservedPages(regions[|regions| - 1], ks, ke)
  }

  ghost function UnreservedPages(r: Region, ks: nat, ke: nat): set<nat> {
    set i | i in RegionPages(r) && !PageIsReserved(i * PAGE_SIZE, ks, ke)
  }

  /** How many pages the counter adds up, region by region. */
  ghost function CountedPages(regions: seq<Region>, ks: nat, ke: nat): nat {
    if |regions| == 0 then 0
    else CountedPages(regions[..|regions| - 1], ks, ke) + |UnreservedPages(regions[|regions| - 1], ks, ke)|
  }

  /** How many pages the regions list, reserved ones included. */
  ghost function ListedPages(regions: seq<Region>): nat {
    if |regions| == 0 then 0 else ListedPages(regions[..|regions| - 1]) + |RegionPages(regions[|regions| - 1])|
  }

  /** No allocatable page belongs to two of the regions. */
  ghost predicate NoOverlap(regions: seq<Region>, ks: nat, ke: nat) {
    forall a, b | 0 <= a < b < |regions| ::
      UnreservedPages(regions[a], ks, ke) !! UnreservedPages(regions[b], ks, ke)
  }

  lemma {:induction false} UsableMember(regions: seq<Region>, ks: nat, ke: nat, p: nat)
    ensures p in UsablePages(regions, ks, ke) <==>
            exists a :: 0 <= a < |regions| && p in UnreservedPages(regions[a], ks, ke)
  {
    if |regions| != 0 {
      var init := regions[..|regions| - 1];
      UsableMember(init, ks, ke, p);
      if p in UsablePages(init, ks, ke) {
        var a :| 0 <= a < |init| && p in UnreservedPages(init[a], ks, ke);
        assert p in UnreservedPages(regions[a], ks, ke);
      }
      if exists a :: 0 <= a < |regions| && p in UnreservedPages(regions[a], ks, ke) {
        var a :| 0 <= a < |regions| && p in UnreservedPages(regions[a], ks, ke);
        if a < |init| {
          assert init[a] == regions[a];
        }
      }
    }
  }

  lemma {:induction false} UsableUnreserved(regions: seq<Region>, ks: nat, ke: nat)
    ensures forall p | p in UsablePages(regions, ks, ke) :: !PageIsReserved(p * PAGE_SIZE, ks, ke)
  {
    if |regions| != 0 {
      UsableUnreserved(regions[..|regions| - 1], ks, ke);
    }
  }

  lemma UnionSize<T>(a: set<T>, b: set<T>)
    ensures |a + b| <= |a| + |b|
    ensures |a + b| == |a| + |b| <==> a !! b
  {
    assert a + b == a + (b - a);
    assert |a + b| == |a| + |b - a|;
    assert b == (b - a) + (a * b);
    assert |b| == |b - a| + |a * b|;
    if a * b == {} {
    } else {
      var x :| x in a * b;
      assert |a * b| > 0;
    }
  }

  /** The counter never undercounts, and it is exact exactly when the regions do not overlap. */
  lemma {:induction false} CountExactness(regions: seq<Region>, ks: nat, ke: nat)
    ensures |UsablePages(regions, ks, ke)| <= CountedPages(regions, ks, ke)
    ensures CountedPages(regions, ks, ke) == |UsablePages(regions, ks, ke)| <==> NoOverlap(regions, ks, ke)
  {
    hide UnreservedPages, NoOverlap;
    if |regions| == 0 {
      EmptyNoOverlap(ks, ke);
    } else {
      var init := regions[..|regions| - 1];
      var last := UnreservedPages(regions[|regions| - 1], ks, ke);
      CountExactness(init, ks, ke);
      UnionSize(UsablePages(init, ks, ke), last);
      if NoOverlap(regions, ks, ke) {
        NoOverlapInit(regions, ks, ke);
      }
      if NoOverlap(init, ks, ke) && UsablePages(init, ks, ke) !! last {
        NoOverlapExtend(regions, ks, ke);
      }
    }
  }

  lemma EmptyNoOverlap(ks: nat, ke: nat)
    ensures NoOverlap([], ks, ke)
  {
  }

  lemma NoOverlapInit(regions: seq<Region>, ks: nat, ke: nat)
    requires |regions| != 0 && NoOverlap(regions, ks, ke)
    ensures NoOverlap(regions[..|regions| - 1], ks, ke)
    ensures UsablePages(regions[..|regions| - 1], ks, ke) !! UnreservedPages(regions[|regions| - 1], ks, ke)
  {
    hide UnreservedPages;
    var init := regions[..|regions| - 1];
    assert forall a | 0 <= a < |init| :: init[a] == regions[a];
    forall p | p in UsablePages(init, ks, ke)
      ensures p !in UnreservedPages(regions[|regions| - 1], ks, ke)
    {
      UsableMember(init, ks, ke, p);
      var a :| 0 <= a < |init| && p in UnreservedPages(init[a], ks, ke);
      assert UnreservedPages(regions[a], ks, ke) !! UnreservedPages(regions[|regions| - 1], ks, ke);
    }
  }

  lemma NoOverlapExtend(regions: seq<Region>, ks: nat, ke: nat)
    requires |regions| != 0 && NoOverlap(regions[..|regions| - 1], ks, ke)
    requires UsablePages(regions[..|regions| - 1], ks, ke) !! UnreservedPages(regions[|regions| - 1], ks, ke)
    ensures NoOverlap(regions, ks, ke)
  {
    hide UnreservedPages;
    var init := regions[..|regions| - 1];
    forall a, b | 0 <= a < b < |regions|
      ensures UnreservedPages(regions[a], ks, ke) !! UnreservedPages(regions[b], ks, ke)
    {
      if b < |init| {
        assert UnreservedPages(init[a], ks, ke) !! UnreservedPages(init[b], ks, ke);
      } else {
        assert init[a] == regions[a];
        forall p | p in UnreservedPages(init[a], ks, ke)
          ensures p in UsablePages(init, ks, ke)
        {
          UsableMember(init, ks, ke, p);
        }
      }
    }
  }

  // ---------- free memory, byte by byte ----------

  predicate InPage(p: nat, b: nat) {
    p * 4096 <= b < p * 4096 + 4096
  }

  /** Some byte of the page lies in `lo .. hi`. */
  ghost predicate Meets(p: nat, lo: nat, hi: nat) {
    exists b: nat :: InPage(p, b) && lo <= b < hi
  }

  /** The heap's arena. */
  ghost predicate InHeap(p: nat) {
    Meets(p, HeapBlocks.KHEAP_BASE, HeapBlocks.KHEAP_BASE + HeapBlocks.ARENA_SIZE)
  }

  /** Every byte of the page is usable memory of the region. If the end of the region wraps its pages are those below
      the wrapped end when its start wraps as well, and none otherwise. */
  ghost predicate Lists(r: Region, p: nat) {
    && r.kind == E820_USABLE && r.length >= 4096
    && if r.base + r.length < U64 then forall b: nat | InPage(p, b) :: r.base <= b < r.base + r.length
       else r.base > U64 - 4096 && forall b: nat | InPage(p, b) :: b < r.base + r.length - U64
  }

  /** A page is free after boot: some region holds it whole, and none of its bytes is needed elsewhere. */
  ghost predicate FreeAtBoot(regions: seq<Region>, ks: nat, ke: nat, p: nat) {
    && p * 4096 < 0x1_0000_0000 && (exists a :: 0 <= a < |regions| && Lists(regions[a], p))
    && !Needed(p, ks, ke)
  }

  /** Some byte of the page is in the first MiB, the kernel's image, one of the two screen buffers or the heap. */
  ghost predicate Needed(p: nat, ks: nat, ke: nat) {
    Meets(p, 0, 0x10_0000) || Meets(p, ks, ke) || Meets(p, 0x0100_0000, 0x0200_0000) || InHeap(p)
  }

  lemma MeetsExact(p: nat, lo: nat, hi: nat)
    requires lo < hi
    ensures Meets(p, lo, hi) <==> p * 4096 < hi && lo < p * 4096 + 4096
  {
    var b: nat := if lo <= p * 4096 then p * 4096 else lo;
    if p * 4096 < hi && lo < p * 4096 + 4096 {
      assert InPage(p, b) && lo <= b < hi;
    }
  }

  /** What the test of a page amounts to, for a kernel image that is not empty and ends before the last page. */
  lemma ReservedBytes(p: nat, ks: nat, ke: nat)
    requires p < MAX_PAGES && ks < ke <= U64 - PAGE_SIZE
    ensures PageIsReserved(p * PAGE_SIZE, ks, ke) <==> Needed(p, ks, ke)
  {
    hide Meets, AlignUp, AlignDown;
    ImagePages(p, ks, ke);
    MeetsExact(p, 0, 0x10_0000);
    MeetsExact(p, ks, ke);
    MeetsExact(p, 0x0100_0000, 0x0200_0000);
    MeetsExact(p, HeapBlocks.KHEAP_BASE, HeapBlocks.KHEAP_BASE + HeapBlocks.ARENA_SIZE);
  }

  /** Rounding the image to pages adds no page that it does not meet. */
  lemma ImagePages(p: nat, ks: nat, ke: nat)
    requires ke <= U64 - PAGE_SIZE
    ensures AlignDown(ks, PAGE_SIZE) < p * 4096 + 4096 <==> ks < p * 4096 + 4096
    ensures p * 4096 < AlignUp(ke, PAGE_SIZE) <==> p * 4096 < ke
  {
    var q := ks / 4096;
    assert AlignDown(ks, PAGE_SIZE) == q * 4096;
    var e := (ke + 4095) / 4096;
    assert AlignUp(ke, PAGE_SIZE) == e * 4096;
  }

  /** Wherever the kernel lies: the first MiB, the two screen buffers and the heap are out of bounds. */
  lemma OutOfBounds(p: nat, ks: nat, ke: nat)
    requires p < MAX_PAGES && !PageIsReserved(p * PAGE_SIZE, ks, ke)
    ensures !Meets(p, 0, 0x10_0000) && !Meets(p, 0x0100_0000, 0x0200_0000) && !InHeap(p)
  {
    hide Meets, AlignUp, AlignDown;
    MeetsExact(p, 0, 0x10_0000);
    MeetsExact(p, 0x0100_0000, 0x0200_0000);
    MeetsExact(p, HeapBlocks.KHEAP_BASE, HeapBlocks.KHEAP_BASE + HeapBlocks.ARENA_SIZE);
  }

  /** Memory that is not part of the heap's arena. */
  predicate ClearOfHeap(lo: nat, hi: nat) {
    hi <= HeapBlocks.KHEAP_BASE || HeapBlocks.KHEAP_BASE + HeapBlocks.ARENA_SIZE <= lo
  }

  lemma PageClear(p: nat, ks: nat, ke: nat)
    requires p < MAX_PAGES && !PageIsReserved(p * PAGE_SIZE, ks, ke)
    ensures ClearOfHeap(p * PAGE_SIZE, p * PAGE_SIZE + PAGE_SIZE)
  {
    hide Meets, PageIsReserved;
    OutOfBounds(p, ks, ke);
    MeetsExact(p, HeapBlocks.KHEAP_BASE, HeapBlocks.KHEAP_BASE + HeapBlocks.ARENA_SIZE);
  }

  /** A run of unreserved pages lies on one side of the heap. */
  lemma RunClear(free: set<nat>, start: nat, count: nat, ks: nat, ke: nat)
    requires RunAt(free, start, count) && count > 0
    requires forall p | p in free :: !PageIsReserved(p * PAGE_SIZE, ks, ke)
    ensures ClearOfHeap(start * PAGE_SIZE, (start + count) * PAGE_SIZE)
  {
    hide PageIsReserved;
    var first := HeapBlocks.KHEAP_BASE / 4096;
    assert start in free;
    PageClear(start, ks, ke);
    if start < first < start + count {
      assert first in free;
      PageClear(first, ks, ke);
    }
  }

  lemma ListsExact(r: Region, p: nat)
    requires p < MAX_PAGES
    ensures p in RegionPages(r) <==> Lists(r, p)
  {
    assert InPage(p, p * 4096) && InPage(p, p * 4096 + 4095);
    if r.length >= 4096 {
      ListsEnds(r, p);
    }
  }

  lemma ListsEnds(r: Region, p: nat)
    requires r.length >= 4096
    ensures r.base + r.length < U64 ==>
              (RegionStart(r) <= p * PAGE_SIZE < RegionEnd(r) <==>
               r.base <= p * 4096 && p * 4096 + 4095 < r.base + r.length)
    ensures r.base + r.length >= U64 ==>
              (RegionStart(r) <= p * PAGE_SIZE < RegionEnd(r) <==>
               r.base > U64 - 4096 && p * 4096 + 4095 < r.base + r.length - U64)
  {
  }

  lemma UsableBytes(regions: seq<Region>, ks: nat, ke: nat, p: nat)
    requires ks < ke <= U64 - PAGE_SIZE
    ensures p in UsablePages(regions, ks, ke) <==> FreeAtBoot(regions, ks, ke, p)
  {
    hide RegionPages, PageIsReserved, Lists, Needed, UsablePages;
    UsableMember(regions, ks, ke, p);
    var apart := p < MAX_PAGES && !PageIsReserved(p * PAGE_SIZE, ks, ke);
    forall a | 0 <= a < |regions|
      ensures p in UnreservedPages(regions[a], ks, ke) <==> apart && Lists(regions[a], p)
    {
      BelowLimit(regions[a]);
      if p < MAX_PAGES {
        ListsExact(regions[a], p);
      }
    }
    if p < MAX_PAGES {
      ReservedBytes(p, ks, ke);
    }
    if p in UsablePages(regions, ks, ke) {
      var a :| 0 <= a < |regions| && p in UnreservedPages(regions[a], ks, ke);
      assert Lists(regions[a], p);
    }
    if FreeAtBoot(regions, ks, ke, p) {
      var a :| 0 <= a < |regions| && Lists(regions[a], p);
      assert p in UnreservedPages(regions[a], ks, ke);
    }
  }

  lemma BelowLimit(r: Region)
    ensures forall p | p in RegionPages(r) :: p < MAX_PAGES
  {
  }

  // ---------- runs of free pages ----------

  /** Pages `start .. start + count` exist and are all free. */
  ghost predicate RunAt(free: set<nat>, start: nat, count: nat) {
    start + count <= MAX_PAGES && forall k: nat | start <= k < start + count :: k in free
  }

  ghost function PageRange(start: nat, count: nat): set<nat> {
    set k: nat | k < start + count && InRange(start, k)
  }

  /** The part of a page range that the bitmap covers. */
  ghost function CoveredRange(start: nat, count: nat): set<nat> {
    set k | k in PageRange(start, count) && k < MAX_PAGES
  }

  function CoveredPage(p: nat): set<nat> { if p < MAX_PAGES then {p} else {} }

  lemma UnionAssoc(a: set<nat>, b: set<nat>, c: set<nat>)
    ensures a + b + c == a + (b + c)
  {
  }

  lemma CoveredStep(start: nat, count: nat)
    ensures CoveredRange(start, 0) == {}
    ensures CoveredRange(start, count + 1) ==
            CoveredRange(start, count) + CoveredPage(start + count)
  {
  }

  lemma ClearBitsInRange(s: seq<bv8>)
    requires |s| == BITMAP_SIZE
    ensures forall p | p in ClearBits(s) :: p < MAX_PAGES
  {
  }

  predicate InRange(start: nat, k: nat) {
    start <= k
  }

  /** Pages below `page` (an address) that a region contributes. */
  ghost function PagesBelow(r: Region, ks: nat, ke: nat, page: nat): set<nat> {
    set i | i in UnreservedPages(r, ks, ke) && i * PAGE_SIZE < page
  }

  /** A page that two usable regions list is counted twice. */
  lemma ListedTwice(ks: nat, ke: nat)
    requires !PageIsReserved(0x0A00_0000, ks, ke)
    ensures var r := Region(0x0A00_0000, PAGE_SIZE, E820_USABLE);
            && UsablePages([r, r], ks, ke) == {0xA000} && CountedPages([r, r], ks, ke) == 2
            && !NoOverlap([r, r], ks, ke)
  {
    hide PageIsReserved;
    var r := Region(0x0A00_0000, PAGE_SIZE, E820_USABLE);
    OnePage(r, ks, ke);
    assert [r, r][..1] == [r] && [r][..0] == [];
    assert UsablePages([r], ks, ke) == {} + {0xA000} && CountedPages([r], ks, ke) == 1;
    assert 0xA000 in UnreservedPages([r, r][0], ks, ke) && 0xA000 in UnreservedPages([r, r][1], ks, ke);
  }

  lemma OnePage(r: Region, ks: nat, ke: nat)
    requires r == Region(0x0A00_0000, PAGE_SIZE, E820_USABLE) && !PageIsReserved(0x0A00_0000, ks, ke)
    ensures UnreservedPages(r, ks, ke) == {0xA000}
  {
    hide PageIsReserved;
    assert RegionStart(r) == 0x0A00_0000 && RegionEnd(r) == 0x0A00_1000;
    forall i: nat
      ensures 0x0A00_0000 <= i * PAGE_SIZE < 0x0A00_1000 <==> i == 0xA000
    {
    }
    assert forall i | i in RegionPages(r) :: i == 0xA000;
    assert 0xA000 in RegionPages(r);
  }

  /** Listing low memory twice does no harm, because none of it is given out. */
  lemma LowMemoryTwice(ks: nat, ke: nat)
    ensures var r := Region(0, LOW_MEMORY_CUTOFF, E820_USABLE);
            && RegionPages(r) != {} && NoOverlap([r, r], ks, ke) && CountedPages([r, r], ks, ke) == 0
  {
    var r := Region(0, LOW_MEMORY_CUTOFF, E820_USABLE);
    assert RegionEnd(r) == LOW_MEMORY_CUTOFF;
    assert 0 in RegionPages(r);
    assert UnreservedPages(r, ks, ke) == {};
    assert [r, r][..1] == [r] && [r][..0] == [];
    assert CountedPages([r], ks, ke) == 0;
  }

  /** What the page at an address adds to the free set. */
  function AddedPage(page: nat, ks: nat, ke: nat): set<nat> {
    if PageIsReserved(page, ks, ke) then {} else {page / PAGE_SIZE}
  }

  lemma NextPage(r: Region, ks: nat, ke: nat, page: nat)
    requires r.kind == E820_USABLE && r.length >= PAGE_SIZE && page % PAGE_SIZE == 0 && page / PAGE_SIZE < MAX_PAGES
    requires RegionStart(r) <= page < RegionEnd(r)
    ensures page / PAGE_SIZE !in PagesBelow(r, ks, ke, page)
    ensures PagesBelow(r, ks, ke, page + PAGE_SIZE) == PagesBelow(r, ks, ke, page) + AddedPage(page, ks, ke)
    ensures |PagesBelow(r, ks, ke, page + PAGE_SIZE)| == |PagesBelow(r, ks, ke, page)| + |AddedPage(page, ks, ke)|
    ensures (page + PAGE_SIZE) % PAGE_SIZE == 0
  {
    hide PageIsReserved, RegionStart, RegionEnd;
    var p := page / PAGE_SIZE;
    assert p in RegionPages(r);
    forall i: nat {
      PageStep(page, i);
    }
  }

  /** Pages below `page` (an address) that a region lists. */
  ghost function ListedBelow(r: Region, page: nat): set<nat> {
    set i | i in RegionPages(r) && i * PAGE_SIZE < page
  }

  lemma NextListed(r: Region, page: nat)
    requires r.kind == E820_USABLE && r.length >= PAGE_SIZE && page % PAGE_SIZE == 0 && page / PAGE_SIZE < MAX_PAGES
    requires RegionStart(r) <= page < RegionEnd(r)
    ensures |ListedBelow(r, page + PAGE_SIZE)| == |ListedBelow(r, page)| + 1
  {
    hide RegionStart, RegionEnd;
    var p := page / PAGE_SIZE;
    assert p in RegionPages(r);
    forall i: nat {
      PageStep(page, i);
    }
    assert ListedBelow(r, page + PAGE_SIZE) == ListedBelow(r, page) + {p};
  }

  lemma NoneListed(r: Region)
    ensures ListedBelow(r, RegionStart(r)) == {}
  {
  }

  lemma AllListed(r: Region, page: nat)
    requires page % PAGE_SIZE == 0
    requires page >= RegionEnd(r) || page / PAGE_SIZE >= MAX_PAGES
    ensures ListedBelow(r, page) == RegionPages(r)
  {
  }

  lemma PageStep(page: nat, i: nat)
    requires page % PAGE_SIZE == 0
    ensures page / PAGE_SIZE * PAGE_SIZE == page
    ensures i * PAGE_SIZE < page + PAGE_SIZE <==> i * PAGE_SIZE < page || i == page / PAGE_SIZE
  {
  }

  lemma StartAligned(r: Region)
    ensures RegionStart(r) % PAGE_SIZE == 0
  {
  }

  lemma EmptyRegion(r: Region, ks: nat, ke: nat)
    requires r.kind != E820_USABLE || r.length < PAGE_SIZE
             || RegionEnd(r) <= RegionStart(r)
    ensures UnreservedPages(r, ks, ke) == {} && RegionPages(r) == {}
  {
  }

  lemma NonePagesBelow(r: Region, ks: nat, ke: nat)
    ensures PagesBelow(r, ks, ke, RegionStart(r)) == {}
  {
  }

  lemma AllPagesBelow(r: Region, ks: nat, ke: nat, page: nat)
    requires page % PAGE_SIZE == 0
    requires page >= RegionEnd(r) || page / PAGE_SIZE >= MAX_PAGES
    ensures PagesBelow(r, ks, ke, page) == UnreservedPages(r, ks, ke)
  {
  }

  /** One page further: a free page that does not complete the run, or a used page. */
  lemma NoRunYet(free: set<nat>, i: nat, found: nat, count: nat)
    requires found < count && found <= i + 1 <= MAX_PAGES
    requires found < i + 1 ==> i - found !in free
    requires forall s: nat | s + count <= i :: !RunAt(free, s, count)
    ensures forall s: nat | s + count <= i + 1 :: !RunAt(free, s, count)
  {
    forall s: nat | s + count == i + 1
      ensures !RunAt(free, s, count)
    {
      assert s <= i - found < s + count;
    }
  }

  lemma RunFound(free: set<nat>, start: nat, count: nat)
    requires start + count <= MAX_PAGES && forall k: nat | start <= k < start + count :: k in free
    ensures RunAt(free, start, count)
  {
  }

  lemma NoRunBeyond(free: set<nat>, count: nat)
    ensures forall s: nat | s + count > MAX_PAGES :: !RunAt(free, s, count)
  {
  }

  /** The page that the rover reaches first: upwards from `from`, then again from zero. */
  ghost predicate FirstFrom(free: set<nat>, from: nat, p: nat) {
    && p in free
    && (from <= p ==> forall q | q in free :: q < from || p <= q)
    && (p < from ==> forall q | q in free :: p <= q < from)
  }

  class PageAllocator {
    const bitmap: array<bv8>
    const kernelStart: nat
    const kernelEnd: nat
    var lastSearchIdx: nat
    var totalPages: nat
    var freePages: nat
    var ready: bool

    constructor (kernelStart: nat, kernelEnd: nat)
      ensures this.kernelStart == kernelStart && this.kernelEnd == kernelEnd
      ensures fresh(bitmap) && bitmap.Length == BITMAP_SIZE
      ensures !ready
    {
      this.kernelStart, this.kernelEnd := kernelStart, kernelEnd;
      bitmap := new bv8[BITMAP_SIZE](_ => 0);
      lastSearchIdx, totalPages, freePages, ready := 0, 0, 0, false;
    }

    predicate Reserved(page: nat) {
      PageIsReserved(page * PAGE_SIZE, kernelStart, kernelEnd)
    }

    /** The abstract value: the set of free page numbers. */
    ghost function Free(): set<nat>
      requires bitmap.Length == BITMAP_SIZE
      reads bitmap
    {
      ClearBits(bitmap[..])
    }

    /** The counter may exceed the number of free pages only by what `Init` counted twice. */
    ghost predicate Valid()
      reads this, bitmap
    {
      Counted() && forall p | p in Free() :: !Reserved(p)
    }

    /** The same without the rule that reserved pages are never free. */
    ghost predicate Counted()
      reads this, bitmap
    {
      && bitmap.Length == BITMAP_SIZE
      && lastSearchIdx < MAX_PAGES
      && |Free()| <= freePages
      && (!ready ==> freePages == 0)
    }

    /** How far the counter is above the true number of free pages. */
    ghost function Surplus(): int
      requires bitmap.Length == BITMAP_SIZE
      reads this, bitmap
    {
      freePages - |Free()|
    }

    method BitmapSet(i: nat)
      requires bitmap.Length == BITMAP_SIZE && i < MAX_PAGES
      modifies bitmap
      ensures Free() == old(Free()) - {i}
    {
      hide Mask, ClearBits;
      SetBit(bitmap[..], i);
      ghost var before := bitmap[..];
      bitmap[i / 8] := bitmap[i / 8] | Mask(i % 8);
      assert bitmap[..] == before[i / 8 := before[i / 8] | Mask(i % 8)];
    }

    method BitmapClear(i: nat)
      requires bitmap.Length == BITMAP_SIZE && i < MAX_PAGES
      modifies bitmap
      ensures Free() == old(Free()) + {i}
    {
      hide Mask, ClearBits;
      ClearBit(bitmap[..], i);
      ghost var before := bitmap[..];
      bitmap[i / 8] := bitmap[i / 8] & !Mask(i % 8);
      assert bitmap[..] == before[i / 8 := before[i / 8] & !Mask(i % 8)];
    }

    method BitmapTest(i: nat) returns (used: bool)
      requires bitmap.Length == BITMAP_SIZE && i < MAX_PAGES
      ensures used <==> i !in Free()
    {
      used := bitmap[i / 8] & Mask(i % 8) != 0;
      assert bitmap[..][i / 8] == bitmap[i / 8];
    }

    /** Free memory after boot is exactly the union of the usable regions less the reserved pages;
        the counter equals its size if and only if no free page was listed twice. */
    method Init(info: Option<BootInfo>)
      requires bitmap.Length == BITMAP_SIZE
      requires info.Some? ==> (if info.value.count > info.value.capacity then info.value.capacity else info.value.count)
                              <= |info.value.regions|
      modifies this, bitmap
      ensures Valid() && lastSearchIdx == 0
      ensures info.None? || info.value.version < BOOT_INFO_VERSION_V2 || info.value.count == 0 ==>
                Free() == {} && !ready
      ensures info.Some? && info.value.version >= BOOT_INFO_VERSION_V2 && info.value.count != 0 ==>
                var used := info.value.regions[..if info.value.count > info.value.capacity then info.value.capacity
                                                 else info.value.count];
                && Free() == UsablePages(used, kernelStart, kernelEnd)
                && (freePages == |Free()| <==> NoOverlap(used, kernelStart, kernelEnd))
                && (ready <==> Free() != {}) && totalPages == ListedPages(used)
                && (kernelStart < kernelEnd <= U64 - PAGE_SIZE ==>
                      forall p: nat :: p in Free() <==> FreeAtBoot(used, kernelStart, kernelEnd, p))
    {
      hide PageIsReserved, ClearBits, UnreservedPages, FreeAtBoot;
      lastSearchIdx, totalPages, freePages, ready := 0, 0, 0, false;
      MarkAllUsed();
      if info.None? || info.value.version < BOOT_INFO_VERSION_V2 || info.value.count == 0 {
        return;
      }
      var count := if info.value.count > info.value.capacity then info.value.capacity else info.value.count;
      InitRegions(info.value.regions[..count]);
      if kernelStart < kernelEnd <= U64 - PAGE_SIZE {
        forall p: nat
          ensures p in Free() <==> FreeAtBoot(info.value.regions[..count], kernelStart, kernelEnd, p)
        {
          UsableBytes(info.value.regions[..count], kernelStart, kernelEnd, p);
        }
      }
      ready := freePages != 0;
    }

    method InitRegions(regions: seq<Region>)
      requires bitmap.Length == BITMAP_SIZE && Free() == {} && freePages == 0
      modifies this`totalPages, this`freePages, bitmap
      ensures Free() == UsablePages(regions, kernelStart, kernelEnd) && (forall p | p in Free() :: !Reserved(p))
      ensures |Free()| <= freePages && (freePages == |Free()| <==> NoOverlap(regions, kernelStart, kernelEnd))
      ensures freePages == 0 <==> Free() == {}
      ensures totalPages == old(totalPages) + ListedPages(regions)
    {
      hide PageIsReserved, ClearBits, UnreservedPages, NoOverlap;
      for i := 0 to |regions|
        invariant Free() == UsablePages(regions[..i], kernelStart, kernelEnd)
        invariant freePages == CountedPages(regions[..i], kernelStart, kernelEnd)
        invariant totalPages == old(totalPages) + ListedPages(regions[..i])
      {
        assert regions[..i + 1][..i] == regions[..i];
        InitRegion(regions[i]);
      }
      assert regions[..|regions|] == regions;
      CountExactness(regions, kernelStart, kernelEnd);
      UsableUnreserved(regions, kernelStart, kernelEnd);
      if Free() == {} {
        NothingCounted(regions, kernelStart, kernelEnd);
      }
    }

    method MarkAllUsed()
      requires bitmap.Length == BITMAP_SIZE
      modifies bitmap
      ensures Free() == {}
    {
      for i := 0 to BITMAP_SIZE
        invariant forall k | 0 <= k < i :: bitmap[k] == 0xFF
      {
        bitmap[i] := 0xFF;
      }
      forall p: nat | p < MAX_PAGES
        ensures p !in Free()
      {
        AllOnes(bitmap[..], p);
      }
    }

    /** One iteration of the region loop. */
    method InitRegion(region: Region)
      requires bitmap.Length == BITMAP_SIZE
      modifies this`totalPages, this`freePages, bitmap
      ensures Free() == old(Free()) + UnreservedPages(region, kernelStart, kernelEnd)
      ensures freePages == old(freePages) + |UnreservedPages(region, kernelStart, kernelEnd)|
      ensures totalPages == old(totalPages) + |RegionPages(region)|
    {
      hide ClearBits, PageIsReserved, PagesBelow, UnreservedPages, RegionStart, RegionEnd;
      StartAligned(region);
      if region.kind != E820_USABLE || region.length < PAGE_SIZE {
        EmptyRegion(region, kernelStart, kernelEnd);
        return;
      }
      var start := RegionStart(region);
      var end := RegionEnd(region);
      if end <= start {
        EmptyRegion(region, kernelStart, kernelEnd);
        return;
      }
      InitPages(region);
    }

    /** The page loop of a region that is large enough. */
    method InitPages(region: Region)
      requires bitmap.Length == BITMAP_SIZE && region.kind == E820_USABLE && region.length >= PAGE_SIZE
      modifies this`totalPages, this`freePages, bitmap
      ensures Free() == old(Free()) + UnreservedPages(region, kernelStart, kernelEnd)
      ensures freePages == old(freePages) + |UnreservedPages(region, kernelStart, kernelEnd)|
      ensures totalPages == old(totalPages) + |RegionPages(region)|
    {
      hide ClearBits, PageIsReserved, PagesBelow, ListedBelow, RegionPages, UnreservedPages, RegionStart, RegionEnd,
           AddedPage;
      StartAligned(region);
      var page, end := RegionStart(region), RegionEnd(region);
      NonePagesBelow(region, kernelStart, kernelEnd);
      NoneListed(region);
      while page < end && page / PAGE_SIZE < MAX_PAGES
        invariant page % PAGE_SIZE == 0 && RegionStart(region) <= page
        invariant totalPages == old(totalPages) + |ListedBelow(region, page)|
        invariant Free() == old(Free()) + PagesBelow(region, kernelStart, kernelEnd, page)
        invariant freePages == old(freePages) + |PagesBelow(region, kernelStart, kernelEnd, page)|
      {
        NextPage(region, kernelStart, kernelEnd, page);
        NextListed(region, page);
        UnionAssoc(old(Free()), PagesBelow(region, kernelStart, kernelEnd, page),
                   AddedPage(page, kernelStart, kernelEnd));
        InitPage(page);
        page := page + PAGE_SIZE;
      }
      AllPagesBelow(region, kernelStart, kernelEnd, page);
      AllListed(region, page);
    }

    /** The body of the page loop. */
    method InitPage(page: nat)
      requires bitmap.Length == BITMAP_SIZE && page / PAGE_SIZE < MAX_PAGES
      modifies this`totalPages, this`freePages, bitmap
      ensures var added := AddedPage(page, kernelStart, kernelEnd);
              Free() == old(Free()) + added && freePages == old(freePages) + |added|
      ensures totalPages == old(totalPages) + 1
    {
      totalPages := totalPages + 1;
      if !PageIsReserved(page, kernelStart, kernelEnd) {
        BitmapClear(page / PAGE_SIZE);
        freePages := freePages + 1;
      }
    }

    /** Succeeds exactly when a page is free, wherever the rover stands, and takes the page the rover reaches first. */
    method AllocPage() returns (addr: nat)
      requires Valid()
      modifies this, bitmap
      ensures Valid() && Surplus() == old(Surplus()) && ready == old(ready)
      ensures addr == 0 <==> old(Free()) == {}
      ensures addr == 0 ==> Free() == old(Free()) && lastSearchIdx == old(lastSearchIdx)
      ensures addr != 0 ==>
                var p := addr / PAGE_SIZE;
                && lastSearchIdx == p
                && addr == p * PAGE_SIZE && p in old(Free()) && p < MAX_PAGES
                && FirstFrom(old(Free()), old(lastSearchIdx), p) && Free() == old(Free()) - {p}
      ensures addr != 0 ==> ClearOfHeap(addr, addr + PAGE_SIZE)
    {
      hide ClearBits, PageIsReserved, ClearOfHeap;
      if !ready || freePages == 0 {
        return 0;
      }
      for i := lastSearchIdx to MAX_PAGES
        invariant Valid() && ready && Free() == old(Free()) && lastSearchIdx == old(lastSearchIdx)
        invariant Surplus() == old(Surplus())
        invariant forall q | q in Free() :: q < lastSearchIdx || i <= q
      {
        var used := BitmapTest(i);
        if !used {
          addr := Take(i);
          return;
        }
      }
      ClearBitsInRange(bitmap[..]);
      for i := 0 to lastSearchIdx
        invariant Valid() && ready && Free() == old(Free()) && lastSearchIdx == old(lastSearchIdx)
        invariant Surplus() == old(Surplus())
        invariant forall q | q in Free() :: i <= q < lastSearchIdx
      {
        var used := BitmapTest(i);
        if !used {
          addr := Take(i);
          return;
        }
      }
      return 0;
    }

    /** The shared body of the two search loops. */
    method Take(i: nat) returns (addr: nat)
      requires Valid() && ready && i in Free()
      modifies this, bitmap
      ensures Valid() && Surplus() == old(Surplus()) && ready == old(ready)
      ensures Free() == old(Free()) - {i} && addr == i * PAGE_SIZE && addr != 0 && lastSearchIdx == i
      ensures ClearOfHeap(addr, addr + PAGE_SIZE)
    {
      PageClear(i, kernelStart, kernelEnd);
      BitmapSet(i);
      freePages := freePages - 1;
      lastSearchIdx := i;
      return i * PAGE_SIZE;
    }

    /** Freeing puts back exactly a used, unreserved, page-aligned page in range, and ignores everything else. */
    method FreePage(addr: Word)
      requires Valid()
      modifies this, bitmap
      ensures Valid() && Surplus() == old(Surplus()) && ready == old(ready)
      ensures Free() == if old(ready) && Freeable(addr) then old(Free()) + {addr / PAGE_SIZE} else old(Free())
      ensures lastSearchIdx ==
              if Free() != old(Free()) && addr / PAGE_SIZE < old(lastSearchIdx) then addr / PAGE_SIZE
              else old(lastSearchIdx)
    {
      hide ClearBits, PageIsReserved;
      PageZeroReserved(kernelStart, kernelEnd);
      if !ready || addr == 0 {
        return;
      }
      if addr % PAGE_SIZE != 0 || PageIsReserved(addr, kernelStart, kernelEnd) {
        return;
      }
      var pageIdx := addr / PAGE_SIZE;
      if pageIdx >= MAX_PAGES {
        return;
      }
      var used := BitmapTest(pageIdx);
      if used {
        BitmapClear(pageIdx);
        freePages := freePages + 1;
        if pageIdx < lastSearchIdx {
          lastSearchIdx := pageIdx;
        }
      }
    }

    predicate Freeable(addr: Word) {
      addr % PAGE_SIZE == 0 && addr / PAGE_SIZE < MAX_PAGES && !Reserved(addr / PAGE_SIZE)
    }

    /** Returns the lowest run of `count` free pages, and fails only when there is none. The rover stays where it is. */
    method AllocPagesMulti(count: nat) returns (addr: nat)
      requires Valid()
      modifies this`freePages, bitmap
      ensures Valid() && Surplus() == old(Surplus()) && ready == old(ready)
      ensures addr == 0 <==> count == 0 || forall s: nat :: !RunAt(old(Free()), s, count)
      ensures addr == 0 ==> Free() == old(Free())
      ensures addr != 0 ==>
                var start := addr / PAGE_SIZE;
                && addr == start * PAGE_SIZE && RunAt(old(Free()), start, count)
                && (forall s: nat | s < start :: !RunAt(old(Free()), s, count))
                && Free() == old(Free()) - PageRange(start, count)
      ensures addr != 0 ==> ClearOfHeap(addr, addr + count * PAGE_SIZE)
    {
      hide ClearBits, PageIsReserved, ClearOfHeap, RunAt, PageRange;
      if !ready || freePages < count || count == 0 {
        if count != 0 {
          forall s: nat
            ensures !RunAt(Free(), s, count)
          {
            if RunAt(Free(), s, count) {
              RunFits(Free(), s, count);
            }
          }
        }
        return 0;
      }
      ghost var free := Free();
      var foundCount, startIdx := 0, 0;
      for i := 0 to MAX_PAGES
        invariant Valid() && Free() == free && ready && Surplus() == old(Surplus())
        invariant foundCount < count && foundCount <= i
        invariant foundCount > 0 ==> startIdx == i - foundCount
        invariant forall k: nat | i - foundCount <= k < i :: k in free
        invariant foundCount < i ==> i - foundCount - 1 !in free
        invariant forall s: nat | s + count <= i :: !RunAt(free, s, count)
      {
        var used := BitmapTest(i);
        if !used {
          if foundCount == 0 {
            startIdx := i;
          }
          foundCount := foundCount + 1;
          if foundCount == count {
            RunFound(free, startIdx, count);
            addr := TakeRun(startIdx, count);
            return;
          }
          NoRunYet(free, i, foundCount, count);
        } else {
          foundCount := 0;
          NoRunYet(free, i, foundCount, count);
        }
      }
      NoRunBeyond(free, count);
      return 0;
    }

    /** The end of a successful search: mark the run and return its address. */
    method TakeRun(start: nat, count: nat) returns (addr: nat)
      requires Valid() && count > 0 && RunAt(Free(), start, count)
      modifies this`freePages, bitmap
      ensures Valid() && Surplus() == old(Surplus())
      ensures Free() == old(Free()) - PageRange(start, count)
      ensures addr == start * PAGE_SIZE && addr != 0 && ClearOfHeap(addr, addr + count * PAGE_SIZE)
    {
      RunFits(Free(), start, count);
      RunClear(Free(), start, count, kernelStart, kernelEnd);
      assert start in Free();
      assert !Reserved(start);
      MarkUsed(start, count);
      freePages := freePages - count;
      addr := start * PAGE_SIZE;
    }

    /** The inner loop that sets the bits of a found run. */
    method MarkUsed(start: nat, count: nat)
      requires bitmap.Length == BITMAP_SIZE && start + count <= MAX_PAGES
      modifies bitmap
      ensures Free() == old(Free()) - PageRange(start, count)
    {
      for j := start to start + count
        invariant Free() == old(Free()) - PageRange(start, j - start)
      {
        BitmapSet(j);
      }
    }

    /**
      * Gives back the used pages of the range, reserved ones included, so that reserved pages stay out of the free set
      * if and only if the range has none. The rover stays where it is, even when it is above them.
      */
    method FreePagesMulti(addr: nat, count: nat)
      requires Valid()
      modifies this, bitmap
      ensures Counted() && Surplus() == old(Surplus()) && ready == old(ready) && lastSearchIdx == old(lastSearchIdx)
      ensures Free() == if !old(ready) || addr == 0 then old(Free())
                        else old(Free()) + CoveredRange(addr / PAGE_SIZE, count)
      ensures Valid() <==> !ready || addr == 0 || forall k | k in CoveredRange(addr / PAGE_SIZE, count) :: !Reserved(k)
    {
      hide ClearBits, PageIsReserved, CoveredRange, PageRange, CoveredPage;
      CoveredStep(addr / PAGE_SIZE, 0);
      if !ready || addr == 0 || count == 0 {
        return;
      }
      ReleaseRange(addr / PAGE_SIZE, count);
    }

    method ReleaseRange(pageIdx: nat, count: nat)
      requires Counted() && ready
      modifies this`freePages, bitmap
      ensures Counted() && Surplus() == old(Surplus())
      ensures Free() == old(Free()) + CoveredRange(pageIdx, count)
    {
      hide ClearBits, PageIsReserved, CoveredRange, PageRange, CoveredPage;
      CoveredStep(pageIdx, 0);
      for i := 0 to count
        invariant Counted() && Surplus() == old(Surplus())
        invariant Free() == old(Free()) + CoveredRange(pageIdx, i)
      {
        CoveredStep(pageIdx, i);
        UnionAssoc(old(Free()), CoveredRange(pageIdx, i), CoveredPage(pageIdx + i));
        Release(pageIdx + i);
      }
    }

    /** The loop body: one page, if it is in range and used. */
    method Release(cur: nat)
      requires Counted() && ready
      modifies this`freePages, bitmap
      ensures Counted() && Surplus() == old(Surplus())
      ensures Free() == old(Free()) + CoveredPage(cur)
    {
      hide ClearBits;
      if cur < MAX_PAGES {
        var used := BitmapTest(cur);
        if used {
          BitmapClear(cur);
          freePages := freePages + 1;
        }
      }
    }
  }

  lemma PageZeroReserved(ks: nat, ke: nat)
    ensures PageIsReserved(0, ks, ke)
  {
  }

  lemma AllOnes(s: seq<bv8>, p: nat)
    requires p / 8 < |s| && s[p / 8] == 0xFF
    ensures Bit(s, p)
  {
    MaskBits(0xFF, p % 8, p % 8);
  }

  lemma NothingCounted(regions: seq<Region>, ks: nat, ke: nat)
    requires UsablePages(regions, ks, ke) == {}
    ensures CountedPages(regions, ks, ke) == 0
  {
    if |regions| != 0 {
      NothingCounted(regions[..|regions| - 1], ks, ke);
    }
  }

  /** A run has as many pages as its length, all of them free. */
  lemma RunFits(free: set<nat>, start: nat, count: nat)
    requires RunAt(free, start, count)
    ensures |PageRange(start, count)| == count && PageRange(start, count) <= free && count <= |free|
    ensures |free - PageRange(start, count)| == |free| - count
  {
    RangeSize(start, count);
    SubsetSize(PageRange(start, count), free);
  }

  lemma {:induction false} RangeSize(start: nat, count: nat)
    ensures |PageRange(start, count)| == count
  {
    if count == 0 {
      assert PageRange(start, 0) == {};
    } else {
      RangeSize(start, count - 1);
      assert PageRange(start, count) == PageRange(start, count - 1) + {start + count - 1};
    }
  }

  lemma SubsetSize<T>(a: set<T>, b: set<T>)
    requires a <= b
    ensures |a| <= |b| && |b - a| == |b| - |a|
  {
    assert b == a + (b - a);
  }
}
