// Building the bitmap from the boot loader's memory map (pmm_init in
// src/kernel/memory/pmm.c).
module PmmInit {
  import opened Wrappers
  import opened Words
  import opened Pmm

  datatype EntryKind = Usable | Reserved | AcpiReclaimable | AcpiNvs | BadMemory
    | BootloaderReclaimable | ExecutableAndModules | Framebuffer | ReservedMapped

  datatype MemEntry = MemEntry(base: nat, length: nat, kind: EntryKind) {
    function End(): nat { base + length }

    // The entries that decide how many pages the bitmap covers.
    predicate Counted() {
      kind.Usable? || kind.BootloaderReclaimable? || kind.ExecutableAndModules?
      || kind.AcpiReclaimable? || kind.AcpiNvs?
    }

    // Page p lies wholly inside the entry.
    predicate Contains(p: nat) {
      base <= p * PAGE_SIZE && (p + 1) * PAGE_SIZE <= End()
    }

    // A page-aligned place for size bytes in the aligned interior; never at address 0.
    function Interior(): (nat, nat) {
      var low := AlignUp(base, PAGE_SIZE);
      (if low == 0 then PAGE_SIZE else low, AlignDown(End(), PAGE_SIZE))
    }

    predicate Fits(size: nat) {
      kind.Usable? && Interior().0 < Interior().1 && Interior().1 - Interior().0 >= size
    }

    predicate HoldsKernel(start: nat) {
      kind.ExecutableAndModules? && base <= start < End()
    }
  }

  type MemMap = seq<MemEntry>

  ghost predicate UsableAt(m: MemMap, p: nat) {
    exists i :: 0 <= i < |m| && m[i].kind.Usable? && m[i].Contains(p)
  }

  // Page p shares a byte with [start, end).
  predicate Overlaps(p: nat, start: nat, end: nat) {
    p * PAGE_SIZE < end && start < (p + 1) * PAGE_SIZE
  }

  // From bitmap a to bitmap b exactly the pages of [lo, hi) became v.
  ghost predicate RangeBecomes(a: seq<byte>, b: seq<byte>, lo: nat, hi: nat, v: bool) {
    && |a| == |b|
    && forall q :: 0 <= q < 8 * |a| ==> PageBit(b, q) == if lo <= q < hi then v else PageBit(a, q)
  }

  ghost predicate FirstKernelEntry(m: MemMap, start: nat, i: nat)
    requires i < |m|
  {
    m[i].HoldsKernel(start) && forall j :: 0 <= j < i ==> !m[j].HoldsKernel(start)
  }

  ghost predicate FirstFit(m: MemMap, size: nat, i: nat)
    requires i < |m|
  {
    m[i].Fits(size) && forall j :: 0 <= j < i ==> !m[j].Fits(size)
  }

  method FindHighestAddress(m: MemMap) returns (highest: nat)
    ensures forall i :: 0 <= i < |m| && m[i].Counted() ==> m[i].End() <= highest
    ensures highest == 0 || exists i :: 0 <= i < |m| && m[i].Counted() && m[i].End() == highest
  {
    highest := 0;
    for i := 0 to |m|
      invariant forall j :: 0 <= j < i && m[j].Counted() ==> m[j].End() <= highest
      invariant highest == 0 || exists j :: 0 <= j < i && m[j].Counted() && m[j].End() == highest
    {
      if m[i].Counted() {
        if m[i].End() > highest {
          highest := m[i].End();
        }
      }
    }
  }

  method FindKernelEnd(m: MemMap, start: nat) returns (end: Option<nat>)
    ensures end.None? <==> forall i :: 0 <= i < |m| ==> !m[i].HoldsKernel(start)
    ensures end.Some? ==> exists i :: 0 <= i < |m| && FirstKernelEntry(m, start, i) && end.value == m[i].End()
  {
    for i := 0 to |m|
      invariant forall j :: 0 <= j < i ==> !m[j].HoldsKernel(start)
    {
      if m[i].HoldsKernel(start) {
        return Some(m[i].End());
      }
    }
    return None;
  }

  method PlaceBitmap(m: MemMap, size: nat) returns (place: Option<nat>)
    ensures place.None? <==> forall i :: 0 <= i < |m| ==> !m[i].Fits(size)
    ensures place.Some? ==> exists i :: 0 <= i < |m| && FirstFit(m, size, i) && place.value == m[i].Interior().0
  {
    for i := 0 to |m|
      invariant forall j :: 0 <= j < i ==> !m[j].Fits(size)
    {
      if m[i].Fits(size) {
        return Some(m[i].Interior().0);
      }
    }
    return None;
  }

  // memset(&pmm_bitmap[page / 8], 0, 8)
  method ClearWord(bitmap: array<byte>, page: nat)
    requires page % 64 == 0 && page + 64 <= 8 * bitmap.Length
    modifies bitmap
    ensures RangeBecomes(old(bitmap[..]), bitmap[..], page, page + 64, false)
  {
    hide Bit;
    var first := page / 8;
    for k := first to first + 8
      invariant forall j :: 0 <= j < bitmap.Length ==>
        bitmap[j] == if first <= j < k then 0 else old(bitmap[j])
    {
      bitmap[k] := 0;
    }
    WordIsCleared(old(bitmap[..]), bitmap[..], page);
  }

  lemma WordIsCleared(a: seq<byte>, b: seq<byte>, page: nat)
    requires |a| == |b| && page % 64 == 0
    requires forall j :: 0 <= j < |a| ==> b[j] == if page / 8 <= j < page / 8 + 8 then 0 else a[j]
    ensures RangeBecomes(a, b, page, page + 64, false)
  {
    hide Bit;
    forall q | 0 <= q < 8 * |a|
      ensures PageBit(b, q) == if page <= q < page + 64 then false else PageBit(a, q)
    {
      ByteOfPage(page, q);
      ZeroBit(q % 8);
    }
  }

  lemma ByteOfPage(page: nat, q: nat)
    requires page % 64 == 0
    ensures page / 8 <= q / 8 < page / 8 + 8 <==> page <= q < page + 64
  {
  }

  lemma {:induction false} ZeroBit(i: nat)
    ensures !Bit(0, i)
  {
    if i > 0 {
      ZeroBit(i - 1);
    }
  }

  method ClearPages(pmm: Pmm, start: nat, end: nat)
    requires end <= 8 * pmm.bitmap.Length
    modifies pmm.bitmap
    ensures RangeBecomes(old(pmm.bitmap[..]), pmm.bitmap[..], start, end, false)
  {
    var page := start;
    while page < end
      invariant start <= page && (page <= end || page == start)
      invariant RangeBecomes(old(pmm.bitmap[..]), pmm.bitmap[..], start, page, false)
    {
      pmm.ClearPage(page);
      page := page + 1;
    }
  }

  method SetPages(pmm: Pmm, start: nat, end: nat)
    requires end <= 8 * pmm.bitmap.Length
    modifies pmm.bitmap
    ensures RangeBecomes(old(pmm.bitmap[..]), pmm.bitmap[..], start, end, true)
  {
    var page := start;
    while page < end
      invariant start <= page && (page <= end || page == start)
      invariant RangeBecomes(old(pmm.bitmap[..]), pmm.bitmap[..], start, page, true)
    {
      pmm.SetPage(page);
      page := page + 1;
    }
  }

  // Head pages one by one up to a word boundary, whole words in bulk, then the
  // tail: together exactly the pages of the region.
  method ClearRegion(pmm: Pmm, start: nat, end: nat)
    requires start < end <= 8 * pmm.bitmap.Length
    modifies pmm.bitmap
    ensures RangeBecomes(old(pmm.bitmap[..]), pmm.bitmap[..], start, end, false)
  {
    hide PageBit, RangeBecomes, AlignUp, AlignDown;
    var next := AlignUp(start, 64);
    var bulkEnd := AlignDown(end, 64);
    WordBounds(start, end);
    if next > end {
      next := end;
    }
    ClearPages(pmm, start, next);
    var page := next;
    while page < bulkEnd
      invariant next <= page <= end && (page % 64 == 0 || page == end)
      invariant RangeBecomes(old(pmm.bitmap[..]), pmm.bitmap[..], start, page, false)
    {
      ghost var b := pmm.bitmap[..];
      NextWord(page, bulkEnd);
      ClearWord(pmm.bitmap, page);
      RangesJoin(old(pmm.bitmap[..]), b, pmm.bitmap[..], start, page, page + 64);
      page := page + 64;
    }
    ghost var b := pmm.bitmap[..];
    ClearPages(pmm, page, end);
    RangesJoin(old(pmm.bitmap[..]), b, pmm.bitmap[..], start, page, end);
  }

  lemma WordBounds(start: nat, end: nat)
    ensures start <= AlignUp(start, 64) && AlignUp(start, 64) % 64 == 0
    ensures AlignDown(end, 64) <= end && AlignDown(end, 64) % 64 == 0
  {
  }

  lemma NextWord(page: nat, end: nat)
    requires page < end && page % 64 == 0 && end % 64 == 0
    ensures page + 64 <= end
  {
  }

  lemma RangesJoin(a: seq<byte>, b: seq<byte>, c: seq<byte>, lo: nat, mid: nat, hi: nat)
    requires lo <= mid <= hi && RangeBecomes(a, b, lo, mid, false) && RangeBecomes(b, c, mid, hi, false)
    ensures RangeBecomes(a, c, lo, hi, false)
  {
  }

  lemma InteriorIsContained(e: MemEntry, p: nat)
    ensures e.Contains(p) <==> AlignUp(e.base, PAGE_SIZE) / PAGE_SIZE <= p < AlignDown(e.End(), PAGE_SIZE) / PAGE_SIZE
  {
    assert AlignUp(e.base, PAGE_SIZE) == (e.base + 4095) / 4096 * 4096;
    assert AlignDown(e.End(), PAGE_SIZE) == e.End() / 4096 * 4096;
  }

  // Bitmap b is a with the first n entries' usable interiors freed.
  ghost predicate UsableFreed(m: MemMap, n: nat, a: seq<byte>, b: seq<byte>)
    requires n <= |m|
  {
    && |a| == |b|
    && forall q :: 0 <= q < 8 * |a| ==> PageBit(b, q) == (PageBit(a, q) && !UsableAt(m[..n], q))
  }

  lemma UsableFreedStep(m: MemMap, n: nat, a: seq<byte>, b: seq<byte>, c: seq<byte>, lo: nat, hi: nat)
    requires n < |m| && UsableFreed(m, n, a, b)
    requires m[n].kind.Usable?
    requires lo == AlignUp(m[n].base, PAGE_SIZE) / PAGE_SIZE && hi == AlignDown(m[n].End(), PAGE_SIZE) / PAGE_SIZE
    requires RangeBecomes(b, c, lo, hi, false)
    ensures UsableFreed(m, n + 1, a, c)
  {
    forall q | 0 <= q < 8 * |a|
      ensures PageBit(c, q) == (PageBit(a, q) && !UsableAt(m[..n + 1], q))
    {
      InteriorIsContained(m[n], q);
      UsableExtend(m, n, q);
    }
  }

  lemma UsableExtend(m: MemMap, n: nat, q: nat)
    requires n < |m|
    ensures UsableAt(m[..n + 1], q) <==> UsableAt(m[..n], q) || (m[n].kind.Usable? && m[n].Contains(q))
  {
    var long, short := m[..n + 1], m[..n];
    if UsableAt(short, q) {
      var i :| 0 <= i < |short| && short[i].kind.Usable? && short[i].Contains(q);
      assert long[i] == short[i];
    }
    if UsableAt(long, q) {
      var i :| 0 <= i < |long| && long[i].kind.Usable? && long[i].Contains(q);
      assert i < n ==> short[i] == long[i];
    }
    assert long[n] == m[n];
  }

  method FreeUsableRegions(pmm: Pmm, m: MemMap)
    requires forall i :: 0 <= i < |m| && m[i].kind.Usable? ==> m[i].End() <= 8 * pmm.bitmap.Length * PAGE_SIZE
    modifies pmm.bitmap
    ensures UsableFreed(m, |m|, old(pmm.bitmap[..]), pmm.bitmap[..])
  {
    for i := 0 to |m|
      invariant UsableFreed(m, i, old(pmm.bitmap[..]), pmm.bitmap[..])
    {
      ghost var b := pmm.bitmap[..];
      var e := m[i];
      if e.kind.Usable? {
        var start := AlignUp(e.base, PAGE_SIZE) / PAGE_SIZE;
        var end := AlignDown(e.End(), PAGE_SIZE) / PAGE_SIZE;
        if start < end {
          ClearRegion(pmm, start, end);
        }
        UsableFreedStep(m, i, old(pmm.bitmap[..]), b, pmm.bitmap[..], start, end);
      } else {
        forall q | 0 <= q < 8 * |b|
          ensures UsableAt(m[..i + 1], q) == UsableAt(m[..i], q)
        {
          UsableExtend(m, i, q);
        }
      }
    }
  }

  // Where the kernel image and the bitmap itself lie in physical memory.
  datatype Layout = Layout(kernelStart: nat, kernelEnd: nat, bitmapStart: nat, bitmapEnd: nat)

  ghost predicate LayoutOf(m: MemMap, kernelBase: nat, total: nat, l: Layout) {
    && l.kernelStart == kernelBase
    && (exists i :: 0 <= i < |m| && FirstKernelEntry(m, kernelBase, i) && l.kernelEnd == m[i].End())
    && (exists i :: 0 <= i < |m| && FirstFit(m, BitmapBytes(total), i) && l.bitmapStart == m[i].Interior().0)
    && l.bitmapEnd == l.bitmapStart + BitmapBytes(total)
  }

  // The number of pages up to the end of the highest counted entry.
  ghost predicate CoversMap(m: MemMap, total: nat) {
    && (forall i :: 0 <= i < |m| && m[i].Counted() ==> m[i].End() <= total * PAGE_SIZE)
    && (total > 0 ==> exists i :: 0 <= i < |m| && m[i].Counted() && m[i].End() > (total - 1) * PAGE_SIZE)
  }

  // No entry's end, rounded up to a page, wraps around 2^64.
  predicate NoWrap(m: MemMap) {
    forall i :: 0 <= i < |m| ==> m[i].End() + PAGE_SIZE <= WORD_LIMIT
  }

  // A page is free iff it lies in some usable interior and overlaps neither the
  // kernel image nor the bitmap.
  ghost predicate FreeExactly(m: MemMap, l: Layout, bm: seq<byte>, total: nat)
    requires total <= 8 * |bm|
  {
    forall p :: 0 <= p < total ==> (!PageBit(bm, p) <==>
      && UsableAt(m, p)
      && !Overlaps(p, l.kernelStart, l.kernelEnd)
      && !Overlaps(p, l.bitmapStart, l.bitmapEnd))
  }

  lemma OverlapIsPageRange(p: nat, start: nat, end: nat)
    ensures Overlaps(p, start, end) <==> AlignDown(start, PAGE_SIZE) / PAGE_SIZE <= p < AlignUp(end, PAGE_SIZE) / PAGE_SIZE
  {
    assert AlignUp(end, PAGE_SIZE) == (end + 4095) / 4096 * 4096;
    assert AlignDown(start, PAGE_SIZE) == start / 4096 * 4096;
  }

  method BuildBitmap(pmm: Pmm, m: MemMap, total: nat, l: Layout)
    requires CoversMap(m, total) && LayoutOf(m, l.kernelStart, total, l)
    modifies pmm
    ensures fresh(pmm.bitmap) && pmm.Valid() && pmm.totalPages == total
    ensures FreeExactly(m, l, pmm.bitmap[..], total) && pmm.lastFreeIndex == old(pmm.lastFreeIndex)
  {
    var size := BitmapBytes(total);
    pmm.totalPages := total;
    pmm.bitmap := new byte[size](_ => 0xFF);
    ghost var b0 := pmm.bitmap[..];
    FullBytes(b0);
    assert forall i :: 0 <= i < |m| && m[i].kind.Usable? ==> m[i].Counted();
    FreeUsableRegions(pmm, m);
    ghost var b1 := pmm.bitmap[..];
    LayoutFits(m, total, l);
    SetPages(pmm, AlignDown(l.kernelStart, PAGE_SIZE) / PAGE_SIZE, AlignUp(l.kernelEnd, PAGE_SIZE) / PAGE_SIZE);
    ghost var b2 := pmm.bitmap[..];
    SetPages(pmm, AlignDown(l.bitmapStart, PAGE_SIZE) / PAGE_SIZE, AlignUp(l.bitmapEnd, PAGE_SIZE) / PAGE_SIZE);
    BitmapIsExact(m, total, l, b0, b1, b2, pmm.bitmap[..]);
  }

  lemma FullBytes(bm: seq<byte>)
    requires forall i :: 0 <= i < |bm| ==> bm[i] == 0xFF
    ensures forall p :: 0 <= p < 8 * |bm| ==> PageBit(bm, p)
  {
    WordLimitIsPow2();
    forall p | 0 <= p < 8 * |bm|
      ensures PageBit(bm, p)
    {
      AllOnesBit(8, p % 8);
    }
  }

  lemma AlignedPages(end: nat, total: nat)
    requires end <= total * PAGE_SIZE
    ensures AlignUp(end, PAGE_SIZE) / PAGE_SIZE <= total
  {
  }

  // The kernel's and the bitmap's pages are inside the bitmap's range.
  lemma LayoutFits(m: MemMap, total: nat, l: Layout)
    requires CoversMap(m, total) && LayoutOf(m, l.kernelStart, total, l)
    ensures AlignUp(l.kernelEnd, PAGE_SIZE) / PAGE_SIZE <= total
    ensures AlignUp(l.bitmapEnd, PAGE_SIZE) / PAGE_SIZE <= total
  {
    var k :| 0 <= k < |m| && FirstKernelEntry(m, l.kernelStart, k) && l.kernelEnd == m[k].End();
    assert m[k].Counted();
    AlignedPages(l.kernelEnd, total);
    var i :| 0 <= i < |m| && FirstFit(m, BitmapBytes(total), i) && l.bitmapStart == m[i].Interior().0;
    assert m[i].Counted();
    AlignedPages(l.bitmapEnd, total);
  }

  lemma BitmapIsExact(m: MemMap, total: nat, l: Layout, b0: seq<byte>, b1: seq<byte>, b2: seq<byte>, b3: seq<byte>)
    requires CoversMap(m, total) && total <= 8 * |b0|
    requires forall p :: 0 <= p < 8 * |b0| ==> PageBit(b0, p)
    requires UsableFreed(m, |m|, b0, b1)
    requires RangeBecomes(b1, b2, AlignDown(l.kernelStart, PAGE_SIZE) / PAGE_SIZE, AlignUp(l.kernelEnd, PAGE_SIZE) / PAGE_SIZE, true)
    requires RangeBecomes(b2, b3, AlignDown(l.bitmapStart, PAGE_SIZE) / PAGE_SIZE, AlignUp(l.bitmapEnd, PAGE_SIZE) / PAGE_SIZE, true)
    ensures FreeExactly(m, l, b3, total) && PaddingSet(b3, total)
  {
    assert m[..|m|] == m;
    forall p | 0 <= p < 8 * |b3|
      ensures !PageBit(b3, p) <==>
        UsableAt(m, p) && !Overlaps(p, l.kernelStart, l.kernelEnd) && !Overlaps(p, l.bitmapStart, l.bitmapEnd)
    {
      OverlapIsPageRange(p, l.kernelStart, l.kernelEnd);
      OverlapIsPageRange(p, l.bitmapStart, l.bitmapEnd);
    }
    forall p | total <= p < 8 * |b3|
      ensures PageBit(b3, p)
    {
      if UsableAt(m, p) {
        var i :| 0 <= i < |m| && m[i].kind.Usable? && m[i].Contains(p);
        assert m[i].Counted();
        assert false;
      }
    }
  }

  // No memory map or kernel address, no entry that holds the kernel, or no room for
  // the bitmap.
  ghost predicate CannotInit(m: MemMap, kernelBase: nat) {
    || |m| == 0 || kernelBase == 0
    || (forall i :: 0 <= i < |m| ==> !m[i].HoldsKernel(kernelBase))
    || (forall i, total :: 0 <= i < |m| && CoversMap(m, total) ==> !m[i].Fits(BitmapBytes(total)))
  }

  method Init(pmm: Pmm, m: MemMap, kernelBase: nat, cr3: nat) returns (r: Outcome<Layout>)
    requires NoWrap(m)
    modifies pmm
    ensures r.Returned? ==> fresh(pmm.bitmap) && pmm.Valid() && pmm.initialized
    ensures r.Returned? ==> CoversMap(m, pmm.totalPages) && LayoutOf(m, kernelBase, pmm.totalPages, r.value)
    ensures r.Returned? ==> FreeExactly(m, r.value, pmm.bitmap[..], pmm.totalPages)
    ensures r.Returned? ==> pmm.lastFreeIndex == old(pmm.lastFreeIndex) && pmm.bootloaderCr3 == cr3
    ensures r.Panic? <==> CannotInit(m, kernelBase)
  {
    if |m| == 0 || kernelBase == 0 { return Panic; }
    var kernelEnd := FindKernelEnd(m, kernelBase);
    if kernelEnd.None? { return Panic; }

    var highest := FindHighestAddress(m);
    var total := (highest + 4095) / 4096;
    assert CoversMap(m, total);
    CoverIsUnique(m, total);
    var size := AlignUp(total, 64) / 8;
    if total % 8 != 0 {
      size := size + 1;
    }
    assert size == BitmapBytes(total);
    var place := PlaceBitmap(m, size);
    if place.None? { return Panic; }

    var layout := Layout(kernelBase, kernelEnd.value, place.value, place.value + size);
    BuildBitmap(pmm, m, total, layout);
    pmm.bootloaderCr3 := cr3;
    pmm.initialized := true;
    return Returned(layout);
  }

  lemma CoverIsUnique(m: MemMap, total: nat)
    requires CoversMap(m, total)
    ensures forall t: nat :: CoversMap(m, t) ==> t == total
  {
  }

  // Page q shares a byte with one of the first n entries the boot loader has given up.
  ghost predicate ReclaimableAt(m: MemMap, n: nat, q: nat)
    requires n <= |m|
  {
    exists i :: 0 <= i < n && m[i].kind.BootloaderReclaimable? && InOuterPages(m[i], q)
  }

  // Page q lies in the entry rounded outwards to whole pages.
  predicate InOuterPages(e: MemEntry, q: nat) {
    AlignDown(e.base, PAGE_SIZE) / PAGE_SIZE <= q < AlignUp(e.End(), PAGE_SIZE) / PAGE_SIZE
  }

  // pmm_reclaim_bootloader_memory, once the boot loader's page tables are out of use:
  // exactly the pages of reclaimable entries, rounded outwards, become free.
  method Reclaim(pmm: Pmm, m: MemMap, cr3: nat) returns (r: Outcome<()>)
    requires pmm.Valid() && NoWrap(m)
    modifies pmm`lastFreeIndex, pmm.bitmap
    ensures pmm.Valid()
    ensures r == Panic <==> pmm.initialized && cr3 == pmm.bootloaderCr3
    ensures !pmm.initialized || r == Panic ==> pmm.Used() == old(pmm.Used()) && pmm.lastFreeIndex == old(pmm.lastFreeIndex)
    ensures pmm.initialized && r != Panic ==> pmm.lastFreeIndex == 0
    ensures pmm.initialized && r != Panic ==> forall q :: 0 <= q < pmm.totalPages ==>
      pmm.Used()[q] == (old(pmm.Used())[q] && !ReclaimableAt(m, |m|, q))
    ensures pmm.initialized && r != Panic && CoversMap(m, pmm.totalPages) ==> AllReclaimed(m, pmm.Used())
  {
    if !pmm.initialized { return Returned(()); }
    if cr3 == pmm.bootloaderCr3 { return Panic; }
    ghost var b0 := pmm.bitmap[..];
    for i := 0 to |m|
      invariant pmm.Valid()
      invariant forall q :: 0 <= q < pmm.totalPages ==> PageBit(pmm.bitmap[..], q) == (PageBit(b0, q) && !ReclaimableAt(m, i, q))
    {
      ghost var b := pmm.bitmap[..];
      var e := m[i];
      if e.kind.BootloaderReclaimable? {
        var start := AlignDown(e.base, PAGE_SIZE) / PAGE_SIZE;
        var end := AlignUp(e.End(), PAGE_SIZE) / PAGE_SIZE;
        if end > pmm.totalPages {
          end := pmm.totalPages;
        }
        ClearPages(pmm, start, end);
      }
      hide PageBit, InOuterPages;
      forall q | 0 <= q < pmm.totalPages
        ensures PageBit(pmm.bitmap[..], q) == (PageBit(b0, q) && !ReclaimableAt(m, i + 1, q))
      {
        ReclaimNext(m, i, q);
      }
    }
    pmm.lastFreeIndex := 0;
    r := Returned(());
    if CoversMap(m, pmm.totalPages) {
      NothingIsClipped(m, pmm.Used());
    }
  }

  lemma ReclaimNext(m: MemMap, n: nat, q: nat)
    requires n < |m|
    ensures ReclaimableAt(m, n + 1, q) <==>
      ReclaimableAt(m, n, q) || (m[n].kind.BootloaderReclaimable? && InOuterPages(m[n], q))
  {
  }

  // Every page that shares a byte with a reclaimable entry is inside the bitmap and free.
  ghost predicate AllReclaimed(m: MemMap, used: seq<bool>) {
    forall i, q: nat :: 0 <= i < |m| ==> FreeIfReclaimable(m[i], q, used)
  }

  predicate FreeIfReclaimable(e: MemEntry, q: nat, used: seq<bool>) {
    e.kind == BootloaderReclaimable && Overlaps(q, e.base, e.End()) ==> q < |used| && !used[q]
  }

  lemma NothingIsClipped(m: MemMap, used: seq<bool>)
    requires CoversMap(m, |used|)
    requires forall q :: 0 <= q < |used| && ReclaimableAt(m, |m|, q) ==> !used[q]
    ensures AllReclaimed(m, used)
  {
    forall i, q: nat | 0 <= i < |m|
      ensures FreeIfReclaimable(m[i], q, used)
    {
      hide CoversMap, ReclaimableAt, Overlaps, MemEntry.End;
      if m[i].kind == BootloaderReclaimable && Overlaps(q, m[i].base, m[i].End()) {
        CoversEveryEntry(m, |used|, i, q);
        OverlapsReclaimable(m, i, q);
      }
    }
  }

  lemma OverlapsReclaimable(m: MemMap, i: nat, q: nat)
    requires i < |m| && m[i].kind == BootloaderReclaimable && Overlaps(q, m[i].base, m[i].End())
    ensures ReclaimableAt(m, |m|, q)
  {
    OverlapIsPageRange(q, m[i].base, m[i].End());
    hide Overlaps, AlignDown, AlignUp, MemEntry.End;
    assert InOuterPages(m[i], q);
  }

  // ---- The same, spelled out for bytes and kinds of memory ----

  // The kinds of entries that hold memory the kernel may come to use.
  const RAM: set<EntryKind> := {Usable, BootloaderReclaimable, ExecutableAndModules, AcpiReclaimable, AcpiNvs}

  // The bitmap has a bit for every page with a byte of such an entry, and the last of its
  // pages holds or precedes the end of one.
  lemma CoversEveryEntry(m: MemMap, total: nat, i: nat, p: nat)
    requires CoversMap(m, total) && i < |m| && m[i].kind in RAM && Overlaps(p, m[i].base, m[i].End())
    ensures p < total
  {
    assert m[i].Counted();
  }

  lemma LastPageIsRam(m: MemMap, total: nat)
    requires CoversMap(m, total) && total > 0
    ensures exists i :: 0 <= i < |m| && m[i].kind in RAM && m[i].End() > (total - 1) * 4096
  {
    var i :| 0 <= i < |m| && m[i].Counted() && m[i].End() > (total - 1) * PAGE_SIZE;
    assert m[i].kind in RAM;
  }

  // No other entry changes the number of pages.
  lemma OtherKindsDoNotMatter(m: MemMap, m': MemMap, total: nat, total': nat)
    requires CoversMap(m, total) && CoversMap(m', total')
    requires forall e: MemEntry :: e.kind in RAM ==> (e in m <==> e in m')
    ensures total == total'
  {
    NotMore(m, m', total, total');
    NotMore(m', m, total', total);
  }

  lemma NotMore(m: MemMap, m': MemMap, total: nat, total': nat)
    requires CoversMap(m, total) && CoversMap(m', total')
    requires forall e: MemEntry :: e.kind in RAM && e in m ==> e in m'
    ensures total <= total'
  {
    if total > 0 {
      var i :| 0 <= i < |m| && m[i].Counted() && m[i].End() > (total - 1) * PAGE_SIZE;
      assert m[i] in m && m[i].kind in RAM;
      var j :| 0 <= j < |m'| && m'[j] == m[i];
      assert m'[j].Counted();
    }
  }

  predicate InPage(p: nat, x: nat) { p * 4096 <= x < p * 4096 + 4096 }

  // A page is free exactly when all its bytes lie in one usable entry and none of them in
  // the kernel image or the bitmap.
  lemma FreePageMeans(m: MemMap, l: Layout, bm: seq<byte>, total: nat, p: nat)
    requires total <= 8 * |bm| && FreeExactly(m, l, bm, total) && LayoutOf(m, l.kernelStart, total, l) && p < total
    ensures !PageBit(bm, p) <==>
      && (exists i :: 0 <= i < |m| && m[i].kind == Usable && forall x: nat :: InPage(p, x) ==> m[i].base <= x < m[i].base + m[i].length)
      && forall x: nat :: InPage(p, x) ==> !(l.kernelStart <= x < l.kernelEnd) && !(l.bitmapStart <= x < l.bitmapEnd)
  {
    hide PageBit;
    forall i | 0 <= i < |m|
      ensures m[i].Contains(p) <==> forall x: nat :: InPage(p, x) ==> m[i].base <= x < m[i].base + m[i].length
    {
      ContainsMeans(m[i], p);
    }
    LayoutMeans(m, l.kernelStart, total, l);
    OverlapMeans(p, l.kernelStart, l.kernelEnd);
    OverlapMeans(p, l.bitmapStart, l.bitmapEnd);
    hide InPage, Overlaps, MemEntry.Contains;
  }

  // Where the kernel and the bitmap lie: the kernel ends where the executable entry with
  // its start ends; the bitmap takes the first place in a usable entry that holds it.
  lemma LayoutMeans(m: MemMap, kernelBase: nat, total: nat, l: Layout)
    requires LayoutOf(m, kernelBase, total, l)
    ensures l.kernelStart == kernelBase < l.kernelEnd && (total > 0 ==> l.bitmapStart < l.bitmapEnd)
    ensures exists i :: 0 <= i < |m| && m[i].kind == ExecutableAndModules && m[i].base <= kernelBase < l.kernelEnd == m[i].base + m[i].length
    ensures l.bitmapEnd == l.bitmapStart + BitmapBytes(total)
    ensures exists i :: 0 <= i < |m| && FirstPlace(m, i, l.bitmapStart, BitmapBytes(total))
  {
    var k :| 0 <= k < |m| && FirstKernelEntry(m, kernelBase, k) && l.kernelEnd == m[k].End();
    var size := BitmapBytes(total);
    var i :| 0 <= i < |m| && FirstFit(m, size, i) && l.bitmapStart == m[i].Interior().0;
    PlaceIs(m[i], size);
    forall j, a: nat | 0 <= j <= i && IsPlace(m[j], a, size)
      ensures j == i && l.bitmapStart <= a
    {
      PlaceFits(m[j], a, size);
    }
    assert FirstPlace(m, i, l.bitmapStart, size);
  }

  // The lowest place in entry i, no earlier entry having one.
  ghost predicate FirstPlace(m: MemMap, i: nat, a: nat, size: nat)
    requires i < |m|
  {
    IsPlace(m[i], a, size) && forall j, b: nat :: 0 <= j <= i && IsPlace(m[j], b, size) ==> j == i && a <= b
  }

  // A non-empty, page-aligned stretch of whole pages of a usable entry that starts with
  // size bytes from a on, a not being 0.
  predicate IsPlace(e: MemEntry, a: nat, size: nat) {
    e.kind == Usable && a > 0 && a % 4096 == 0 && e.base <= a && a + 4096 <= e.End() && a + size <= e.End() / 4096 * 4096
  }

  lemma PlaceIs(e: MemEntry, size: nat)
    requires e.Fits(size)
    ensures IsPlace(e, e.Interior().0, size)
  {
    AlignedUp(e.base);
    AlignedDown(e.End());
    hide AlignUp, AlignDown;
  }

  lemma PlaceFits(e: MemEntry, a: nat, size: nat)
    requires IsPlace(e, a, size)
    ensures e.Fits(size) && e.Interior().0 <= a
  {
    AlignedUp(e.base);
    AlignedDown(e.End());
    LowestAligned(e.base, a);
    HighestAligned(e.End(), a + 4096);
    hide AlignUp, AlignDown;
  }

  lemma AlignedUp(v: nat)
    ensures AlignUp(v, 4096) % 4096 == 0 && v <= AlignUp(v, 4096) < v + 4096
  {
  }

  lemma AlignedDown(v: nat)
    ensures AlignDown(v, 4096) == v / 4096 * 4096 && AlignDown(v, 4096) <= v < AlignDown(v, 4096) + 4096
  {
  }

  lemma LowestAligned(v: nat, a: nat)
    requires v <= a && a % 4096 == 0
    ensures AlignUp(v, 4096) <= a
  {
    assert AlignUp(v, 4096) == (v + 4095) / 4096 * 4096;
  }

  lemma HighestAligned(v: nat, a: nat)
    requires a <= v && a % 4096 == 0
    ensures a <= AlignDown(v, 4096)
  {
    assert AlignDown(v, 4096) == v / 4096 * 4096;
  }

  lemma ContainsMeans(e: MemEntry, p: nat)
    ensures e.Contains(p) <==> forall x: nat :: InPage(p, x) ==> e.base <= x < e.base + e.length
  {
    if !e.Contains(p) {
      assert InPage(p, p * 4096) && InPage(p, p * 4096 + 4095);
    }
  }

  lemma OverlapMeans(p: nat, start: nat, end: nat)
    requires start <= end
    ensures start < end ==> (Overlaps(p, start, end) <==> exists x: nat :: InPage(p, x) && start <= x < end)
    ensures (forall x: nat :: InPage(p, x) ==> !(start <= x < end)) <==> !(start < end && Overlaps(p, start, end))
  {
    var x := if p * 4096 <= start then start else p * 4096;
    if start < end && Overlaps(p, start, end) {
      assert InPage(p, x) && start <= x < end;
    }
  }

  lemma PlaceExists(e: MemEntry, size: nat)
    ensures e.Fits(size) <==> exists a: nat :: IsPlace(e, a, size)
  {
    if e.Fits(size) {
      PlaceIs(e, size);
    }
    if a: nat :| IsPlace(e, a, size) {
      PlaceFits(e, a, size);
    }
  }

  // pmm_init panics exactly when there is no memory map or no kernel address, no
  // executable entry holds the kernel's start, or no usable entry has a place for the
  // bitmap.
  lemma CannotInitMeans(m: MemMap, kernelBase: nat, total: nat)
    requires CoversMap(m, total)
    ensures CannotInit(m, kernelBase) <==> (
      || |m| == 0 || kernelBase == 0
      || (forall e :: e in m && e.kind == ExecutableAndModules ==> !(e.base <= kernelBase < e.base + e.length))
      || (forall e, a: nat :: e in m ==> !IsPlace(e, a, BitmapBytes(total))))
  {
    CoverIsUnique(m, total);
    forall i | 0 <= i < |m|
      ensures m[i].Fits(BitmapBytes(total)) <==> exists a: nat :: IsPlace(m[i], a, BitmapBytes(total))
    {
      PlaceExists(m[i], BitmapBytes(total));
    }
    hide IsPlace, MemEntry.Fits, CoversMap;
    assert forall e :: e in m <==> exists i :: 0 <= i < |m| && m[i] == e;
  }

  // One bit a page in whole 64-bit words, and a byte more when the pages fill no whole
  // number of bytes.
  lemma BitmapSize(total: nat)
    ensures BitmapBytes(total) == (total + 63) / 64 * 8 + if total % 8 == 0 then 0 else 1
  {
    assert AlignUp(total, 64) == (total + 63) / 64 * 64;
  }
}
