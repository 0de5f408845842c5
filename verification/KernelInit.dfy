// The memory part of kernel_init (src/kernel/init.c): page allocator, back buffer,
// boot address space, heap. What each step needs is what the earlier ones left.
module KernelInit {
  import opened Wrappers
  import opened Words
  import opened Pmm
  import PmmInit
  import opened Paging
  import opened Vmm
  import Boot
  import opened Lists
  import opened Heap

  // The boot loader's guarantee: no usable page at address 0.
  ghost predicate PageZeroReserved(m: PmmInit.MemMap) {
    !PmmInit.UsableAt(m, 0)
  }

  // Every used page belongs to the boot image, the bitmap, or nobody's free memory.
  function BootOwner(used: seq<bool>): (owner: map<nat, Owner>)
    ensures OwnsUsed(owner, used) && forall t :: t in owner ==> owner[t] == Owner.Boot
  {
    map p: nat | 0 <= p < |used| && used[p] :: Owner.Boot
  }

  lemma NoTablesYet(mem: Memory, owner: map<nat, Owner>)
    requires forall t :: t in owner ==> owner[t] == Owner.Boot
    ensures WellFormed(mem, owner)
  {
  }

  // Pages are numbered within the 52 physical address bits.
  lemma PagesFit(m: PmmInit.MemMap, hhdm: nat, total: nat)
    requires Boot.MapLayout(m, hhdm) && PmmInit.CoversMap(m, total)
    ensures total <= FRAME_LIMIT
  {
    if total > 0 {
      var i :| 0 <= i < |m| && m[i].Counted() && m[i].End() > (total - 1) * PAGE_SIZE;
      assert Boot.EntryLayout(m[i], hhdm);
    }
  }

  // Above the kernel's data nothing is mapped, so no large page is in the heap's way.
  lemma HeapRegionIsClear(mem: Memory, root: nat, m: PmmInit.MemMap, k: Boot.Kernel, fb: Option<Boot.FrameBuffer>, hhdm: nat,
                          heap: nat)
    requires Boot.BootLayout(m, k, fb, hhdm) && Boot.ExactlyMapped(mem, root, Boot.BootRanges(m, k, fb, hhdm))
    requires Boot.KERNEL_BASE <= heap && Boot.PageUp(k.data.end) <= heap
    ensures NoLargeFrom(mem, root, heap)
  {
    var rs := Boot.BootRanges(m, k, fb, hhdm);
    forall i | 0 <= i < |rs|
      ensures rs[i].end <= heap
    {
      Boot.RangeAt(m, k, fb, hhdm, i);
      KernelEnds(k);
    }
    hide Translate, Boot.BootLayout, Boot.ExactlyMapped;
    forall v: nat | heap <= v < WORD_LIMIT
      ensures !Translate(mem, root, v).IsLarge()
    {
      assert Canonical(v);
      Boot.MappedIffCovered(mem, root, m, k, fb, hhdm, v);
    }
  }

  lemma KernelEnds(k: Boot.Kernel)
    requires Boot.KernelLayout(k)
    ensures forall i :: 0 <= i < 4 ==> Boot.KernelRanges(k)[i].end <= Boot.PageUp(k.data.end)
  {
    Boot.PagesOf(k.text);
    Boot.PagesOf(k.rodata);
    Boot.PagesOf(k.data);
    hide Boot.PageUp, Boot.PageDown;
  }

  // Returns the heap, or nothing when the kernel panics or vmm_init fails.
  method InitMemory(pmm: Pmm, links: ListMemory, memory: Memory, m: PmmInit.MemMap, k: Boot.Kernel,
                    fb: Option<Boot.FrameBuffer>, hhdm: nat, cr3: nat, backBufferPages: nat, freeHead: nat, heapSymbol: nat)
    returns (heap: Heap?, ghost l: PmmInit.Layout, ghost used0: seq<bool>)
    requires PmmInit.NoWrap(m) && PageZeroReserved(m) && Boot.BootLayout(m, k, fb, hhdm)
    requires forall p: nat :: p < FRAME_LIMIT ==> p in memory
    requires freeHead < heapSymbol && Boot.KERNEL_BASE <= heapSymbol && heapSymbol + 4096 < WORD_LIMIT
    requires Boot.PageUp(k.data.end) <= heapSymbol && pmm.lastFreeIndex == 0
    modifies pmm, links
    ensures heap == null <==> (
      || PmmInit.CannotInit(m, k.physicalBase)
      || NoRunOf(used0, backBufferPages)
      || FreeCount(used0) < backBufferPages + 1 + Boot.BootFrames(Boot.BootRanges(m, k, fb, hhdm)))
    ensures !PmmInit.CannotInit(m, k.physicalBase) ==>
      PmmInit.LayoutOf(m, k.physicalBase, |used0|, l) && UsedAtFirst(m, l, used0) && PmmInit.CoversMap(m, |used0|)
    ensures heap != null ==> fresh(heap) && fresh(heap.vm) && heap.vm.pmm == pmm && heap.links == links && heap.Valid()
    ensures heap != null ==> fresh(pmm.bitmap)
    ensures heap != null ==>
      Boot.ExactlyMapped(heap.vm.mem, heap.vm.root, Boot.BootRanges(m, k, fb, hhdm))
    ensures heap != null ==> PmmInit.LayoutOf(m, k.physicalBase, pmm.totalPages, l) && ReservedAreBoot(l, pmm.totalPages, heap.vm.owner)
  {
    hide *;
    heap, l, used0 := null, PmmInit.Layout(0, 0, 0, 0), [];
    var layout := PmmInit.Init(pmm, m, k.physicalBase, cr3);
    if layout.Panic? { return; }
    l := layout.value;
    ZeroIsUsed(pmm, m, k, fb, hhdm, l);
    ReservedAreUsed(pmm, m, l);
    used0 := pmm.Used();
    var buffer := AllocBackBuffer(pmm, backBufferPages);
    if buffer == 0 { return; }
    TakingRun(used0, buffer / PAGE_SIZE, backBufferPages);
    ReservedStayUsed(l, used0, buffer / PAGE_SIZE, buffer / PAGE_SIZE + backBufferPages);
    var vm := new Vmm(pmm, memory, BootOwner(pmm.Used()));
    BootIsOwned(vm);
    FreeIs(vm);
    ghost var owner0 := vm.owner;
    ReservedAreOwned(l, pmm);
    var ready := Boot.Init(vm, m, k, fb, hhdm);
    if ready != Returned(true) { return; }
    AddingExtends(owner0, vm.owner);
    ExtendingKeepsFixed(owner0, vm.owner);
    ReservedStay(l, pmm.totalPages, owner0, vm.owner);
    HeapRegionIsClear(vm.mem, vm.root, m, k, fb, hhdm, heapSymbol);
    HeapLimits(heapSymbol);
    heap := new Heap(vm, links, freeHead, heapSymbol);
  }

  // screen_init's allocation of the back buffer.
  method AllocBackBuffer(pmm: Pmm, pages: nat) returns (addr: nat)
    requires pmm.Valid() && pmm.initialized && pmm.totalPages > 0 && pmm.Used()[0] && pmm.lastFreeIndex == 0
    modifies pmm`lastFreeIndex, pmm.bitmap
    ensures pmm.Valid() && pmm.Used()[0]
    ensures addr == 0 <==> NoRunOf(old(pmm.Used()), pages)
    ensures pages == 0 ==> addr == 0
    ensures addr == 0 ==> pmm.Used() == old(pmm.Used())
    ensures addr != 0 ==> addr % PAGE_SIZE == 0 && addr / PAGE_SIZE + pages <= pmm.totalPages
    ensures addr != 0 ==> FreeRun(old(pmm.Used()), addr / PAGE_SIZE, pages)
    ensures addr != 0 ==> pmm.Used() == SetRange(old(pmm.Used()), addr / PAGE_SIZE, addr / PAGE_SIZE + pages, true)
    ensures unchanged(pmm`totalPages) && unchanged(pmm`initialized)
  {
    hide FirstRun, FirstFree, FreeRun, ChoosePage, ChooseRun, NoRunOf, UsedMap, PaddingSet, BitmapBytes, PageBit, Chosen;
    ghost var used := pmm.Used();
    RunIsChosen(used, pages);
    ChosenIs(used, pages);
    addr := pmm.AllocPages(pages);
    if addr != 0 && pages == 1 {
      OneTaken(used, addr / PAGE_SIZE);
    }
  }

  // The start of the run the back buffer gets.
  ghost function Chosen(used: seq<bool>, pages: nat): Option<nat> {
    if pages == 0 then None else if pages == 1 then ChoosePage(used, 0) else ChooseRun(used, pages, 0)
  }

  lemma ChosenIs(used: seq<bool>, pages: nat)
    ensures pages == 0 ==> Chosen(used, pages) == None
    ensures pages == 1 ==> Chosen(used, pages) == ChoosePage(used, 0)
    ensures pages >= 2 ==> Chosen(used, pages) == ChooseRun(used, pages, 0)
  {
  }

  lemma OneTaken(used: seq<bool>, p: nat)
    requires p < |used|
    ensures used[p := true] == SetRange(used, p, p + 1, true)
  {
  }

  // Page p holds a part of the kernel image or of the bitmap.
  predicate Reserved(l: PmmInit.Layout, p: nat) {
    PmmInit.Overlaps(p, l.kernelStart, l.kernelEnd) || PmmInit.Overlaps(p, l.bitmapStart, l.bitmapEnd)
  }

  // The kernel's and the bitmap's pages belong to the boot image.
  ghost predicate ReservedAreBoot(l: PmmInit.Layout, total: nat, owner: map<nat, Owner>) {
    forall p: nat :: p < total && Reserved(l, p) ==> p in owner && owner[p] == Owner.Boot
  }

  // The pages in use when pmm_init returns: all but those of usable interiors outside
  // the kernel image and the bitmap.
  ghost predicate UsedAtFirst(m: PmmInit.MemMap, l: PmmInit.Layout, used: seq<bool>) {
    forall p: nat :: p < |used| ==> (!used[p] <==> PmmInit.UsableAt(m, p) && !Reserved(l, p))
  }

  lemma FreeIs(vm: Vmm)
    requires vm.pmm.Valid()
    ensures vm.Free() == FreeCount(vm.pmm.Used())
  {
  }

  lemma {:induction false} TakingRun(u: seq<bool>, start: nat, n: nat)
    requires FreeRun(u, start, n)
    ensures FreeCount(SetRange(u, start, start + n, true)) + n == FreeCount(u)
  {
    if n == 0 {
      assert SetRange(u, start, start, true) == u;
    } else {
      TakingRun(u, start, n - 1);
      var some := SetRange(u, start, start + n - 1, true);
      TakingOne(some, start + n - 1);
      assert SetRange(u, start, start + n, true) == some[start + n - 1 := true];
    }
  }

  ghost predicate ReservedUsed(l: PmmInit.Layout, used: seq<bool>) {
    forall p: nat :: p < |used| && Reserved(l, p) ==> used[p]
  }

  lemma ReservedAreUsed(pmm: Pmm, m: PmmInit.MemMap, l: PmmInit.Layout)
    requires pmm.Valid() && PmmInit.FreeExactly(m, l, pmm.bitmap[..], pmm.totalPages)
    ensures ReservedUsed(l, pmm.Used()) && UsedAtFirst(m, l, pmm.Used())
  {
  }

  lemma ReservedStayUsed(l: PmmInit.Layout, used: seq<bool>, start: nat, end: nat)
    requires ReservedUsed(l, used) && start <= end <= |used|
    ensures ReservedUsed(l, SetRange(used, start, end, true))
  {
  }

  lemma ReservedAreOwned(l: PmmInit.Layout, pmm: Pmm)
    requires pmm.Valid() && ReservedUsed(l, pmm.Used())
    ensures ReservedAreBoot(l, pmm.totalPages, BootOwner(pmm.Used()))
  {
  }

  // Only pages handed to a caller may lose their owner.
  ghost predicate KeepsFixed(owner: map<nat, Owner>, owner': map<nat, Owner>) {
    forall f :: f in owner && owner[f] != Held ==> f in owner' && owner'[f] == owner[f]
  }

  // Then kernel and bitmap pages keep theirs.
  lemma ReservedStay(l: PmmInit.Layout, total: nat, owner: map<nat, Owner>, owner': map<nat, Owner>)
    requires ReservedAreBoot(l, total, owner) && KeepsFixed(owner, owner')
    ensures ReservedAreBoot(l, total, owner')
  {
    hide Reserved;
  }

  lemma ExtendingKeepsFixed(owner: map<nat, Owner>, owner': map<nat, Owner>)
    requires Extends(owner, owner')
    ensures KeepsFixed(owner, owner')
  {
  }

  // There is no free run of that many pages; a request for none counts as failing.
  ghost predicate NoRunOf(used: seq<bool>, pages: nat) {
    pages == 0 || forall s: nat :: !FreeRun(used, s, pages)
  }

  // With the hint at the start nothing straddles it, so the search is complete.
  lemma RunIsChosen(used: seq<bool>, pages: nat)
    requires |used| > 0 && used[0]
    ensures Chosen(used, pages).None? <==> NoRunOf(used, pages)
    ensures forall s: nat :: Chosen(used, pages) == Some(s) ==> s > 0 && s + pages <= |used| && FreeRun(used, s, pages)
  {
    if pages == 1 {
      OneIsChosen(used);
    } else if pages >= 2 {
      hide FirstRun;
      ChooseRunExact(used, pages, 0);
    }
  }

  lemma OneIsChosen(used: seq<bool>)
    requires |used| > 0 && used[0]
    ensures ChoosePage(used, 0).None? <==> NoRunOf(used, 1)
    ensures forall s: nat :: ChoosePage(used, 0) == Some(s) ==> s > 0 && s + 1 <= |used| && FreeRun(used, s, 1)
  {
    hide FirstFree;
    forall s: nat
      ensures FreeRun(used, s, 1) <==> s < |used| && !used[s]
    {
      assert s < |used| ==> used[s] || !used[s];
    }
  }

  lemma ZeroIsUsed(pmm: Pmm, m: PmmInit.MemMap, k: Boot.Kernel, fb: Option<Boot.FrameBuffer>, hhdm: nat, l: PmmInit.Layout)
    requires pmm.Valid() && PmmInit.CoversMap(m, pmm.totalPages) && PageZeroReserved(m) && Boot.BootLayout(m, k, fb, hhdm)
    requires PmmInit.LayoutOf(m, k.physicalBase, pmm.totalPages, l)
    requires PmmInit.FreeExactly(m, l, pmm.bitmap[..], pmm.totalPages)
    ensures 0 < pmm.totalPages <= FRAME_LIMIT && pmm.Used()[0]
  {
    PagesFit(m, hhdm, pmm.totalPages);
    var i :| 0 <= i < |m| && PmmInit.FirstKernelEntry(m, k.physicalBase, i) && l.kernelEnd == m[i].End();
    assert m[i].Counted();
  }

  lemma BootIsOwned(vm: Vmm)
    requires vm.pmm.Valid() && vm.pmm.initialized && 0 < vm.pmm.totalPages <= FRAME_LIMIT && vm.pmm.Used()[0]
    requires vm.owner == BootOwner(vm.pmm.Used())
    requires forall p: nat :: p < FRAME_LIMIT ==> p in vm.mem
    ensures vm.Valid() && forall t :: t in vm.owner ==> !vm.owner[t].TableAt?
  {
    NoTablesYet(vm.mem, vm.owner);
  }

  lemma HeapLimits(heap: nat)
    requires Boot.KERNEL_BASE <= heap
    ensures LOWEST_HEAP <= heap
  {
  }
}
