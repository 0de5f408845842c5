// The memory system in use after boot: page allocation, mapping and the heap called in
// any order, as the rest of the kernel does.
module KernelMemory {
  import opened Wrappers
  import opened Words
  import opened Pmm
  import PmmInit
  import opened Paging
  import opened MissingTables
  import opened Vmm
  import Boot
  import opened Lists
  import opened HeapBlocks
  import opened Heap
  import opened KernelInit

  // The calls the rest of the kernel can make.
  datatype Event =
    | AllocPage | AllocPages(count: nat) | FreePage(addr: word) | FreePages(addr: word, n: word)
    | MapPage(va: word, phys: nat, flags: word) | UnmapPage(va: word)
    | Kmalloc(size: nat) | Kfree(ptr: nat) | Kcalloc(num: word, each: word) | Krealloc(ptr: nat, size: nat)

  ghost predicate HeldAreOwned(held: set<nat>, owner: map<nat, Owner>) {
    forall p :: p in held ==> p in owner && owner[p] == Held
  }

  // The heap's pages, and what lies beyond them, as seen by the heap.
  ghost predicate HeapPagesOk(mem: Memory, root: nat, owner: map<nat, Owner>, start: nat, end: nat) {
    HeapMapped(mem, root, owner, start, end) && NoLargeFrom(mem, root, end)
  }

  lemma HeapPagesStay(mem: Memory, mem': Memory, root: nat, owner: map<nat, Owner>, owner': map<nat, Owner>, start: nat, end: nat)
    requires HeapPagesOk(mem, root, owner, start, end) && KeepsFixed(owner, owner')
    requires forall v: nat :: start <= v < end ==> Translate(mem', root, v) == Translate(mem, root, v)
    requires forall v: nat :: end <= v < WORD_LIMIT ==> !Translate(mem', root, v).IsLarge()
    ensures HeapPagesOk(mem', root, owner', start, end)
  {
    hide Translate, FrameOf, Walk.Rights;
    forall v: nat | start <= v < end && v % 4096 == 0
      ensures PageOwned(mem', root, owner', v)
    {
      assert PageOwned(mem, root, owner, v);
    }
  }

  lemma SameMemoryKeepsPages(mem: Memory, root: nat, owner: map<nat, Owner>, owner': map<nat, Owner>, start: nat, end: nat)
    requires HeapPagesOk(mem, root, owner, start, end) && KeepsFixed(owner, owner')
    ensures HeapPagesOk(mem, root, owner', start, end)
  {
    hide Translate;
    HeapPagesStay(mem, mem, root, owner, owner', start, end);
  }

  lemma SameWalksKeepPages(mem: Memory, mem': Memory, root: nat, owner: map<nat, Owner>, owner': map<nat, Owner>, start: nat, end: nat)
    requires HeapPagesOk(mem, root, owner, start, end) && KeepsFixed(owner, owner') && SameWalks(mem, mem', root, true)
    ensures HeapPagesOk(mem', root, owner', start, end)
  {
    hide Translate;
    forall v: nat
      ensures Translate(mem', root, v) == Translate(mem, root, v)
    {
      SameWalkAt(mem, mem', root, true, v);
    }
    HeapPagesStay(mem, mem', root, owner, owner', start, end);
  }

  // The page of va is none of the heap's.
  predicate OutsideHeap(va: nat, start: nat, end: nat) {
    va < start || end <= va
  }

  // Changing the walk of one page outside the heap to a small page or to nothing.
  lemma RemapKeepsPages(mem: Memory, mem': Memory, root: nat, owner: map<nat, Owner>, owner': map<nat, Owner>, start: nat, end: nat,
                        va: nat, w: Walk)
    requires HeapPagesOk(mem, root, owner, start, end) && KeepsFixed(owner, owner') && Remaps(mem, mem', root, 1, va, w)
    requires LOWEST_HEAP <= start <= end < WORD_LIMIT && start % 4096 == 0 && end % 4096 == 0
    requires Canonical(va) && OutsideHeap(va, start, end) && !w.IsLarge()
    ensures HeapPagesOk(mem', root, owner', start, end)
  {
    hide Translate, Prefix, Canonical, Walk.IsLarge, HeapMapped;
    forall v: nat | start <= v < WORD_LIMIT
      ensures v < end ==> Translate(mem', root, v) == Translate(mem, root, v)
      ensures end <= v ==> !Translate(mem', root, v).IsLarge()
    {
      UpperHalfIsCanonical(v);
      if Prefix(0, v) == Prefix(0, va) {
        SamePageOutside(v, va, start, end);
      }
    }
    HeapPagesStay(mem, mem', root, owner, owner', start, end);
  }

  lemma SamePageOutside(v: nat, va: nat, start: nat, end: nat)
    requires Canonical(v) && Canonical(va) && Prefix(0, v) == Prefix(0, va)
    requires start % 4096 == 0 && end % 4096 == 0 && start <= v && OutsideHeap(va, start, end)
    ensures end <= v
  {
    CanonicalPage(v, va);
    PageSides(v, va, start);
    PageSides(v, va, end);
  }

  // Addresses of one page are on the same side of a page boundary.
  lemma PageSides(a: nat, b: nat, boundary: nat)
    requires a / 4096 == b / 4096 && boundary % 4096 == 0
    ensures a < boundary <==> b < boundary
  {
  }

  lemma ExtendingKeepsHeld(held: set<nat>, owner: map<nat, Owner>, owner': map<nat, Owner>)
    requires HeldAreOwned(held, owner) && Extends(owner, owner')
    ensures HeldAreOwned(held, owner')
  {
  }

  // What the calls change: the tables, who owns which page, the heap's blocks and
  // payloads, and the pages handed out. The owned pages are the used ones.
  datatype View = View(mem: Memory, owner: map<nat, Owner>, s: State, data: Bytes, held: set<nat>)

  // What stays: the number of pages, the top-level table and where the heap starts.
  datatype Place = Place(total: nat, root: nat, heapStart: nat)

  ghost predicate MayMapAt(k: Place, x: View, va: word) {
    Canonical(va) && OutsideHeap(va, k.heapStart, x.s.end) && !Translate(x.mem, k.root, va).IsLarge()
  }

  ghost predicate RoomAt(x: View, size: nat) {
    size == 0 || FitsNow(x.s, size) || x.s.end + GrowthPages(Round16(size)) * 4096 < WORD_LIMIT
  }

  // A caller may free pages it holds, map and unmap pages that are none of the heap's and
  // not under a large page, and ask the heap for what there is address space for.
  ghost predicate MayCall(k: Place, x: View, e: Event) {
    match e
    case AllocPage => true
    case AllocPages(_) => true
    case FreePage(addr) => addr != 0 && addr % 4096 == 0 && addr / 4096 in x.held
    case FreePages(addr, count) => addr != 0 && addr % 4096 == 0 && count != 0 && PageRange(addr / 4096, count) <= x.held
    case MapPage(va, phys, flags) => MayMapAt(k, x, va) && phys < PHYS_LIMIT && FlagsOk(flags)
    case UnmapPage(va) => MayMapAt(k, x, va)
    case Kmalloc(size) => RoomAt(x, size)
    case Kfree(ptr) => ptr == 0 || HandedOut(x.s, ptr)
    case Kcalloc(num, size) => RoomAt(x, num * size % WORD_LIMIT)
    case Krealloc(ptr, size) => RoomAt(x, size) && (ptr == 0 || IsLive(x.s, ptr))
  }

  // Whether the heap has a block for a request, or the frames to grow for it.
  ghost predicate ServedAt(k: Place, x: View, size: nat)
    requires |x.owner| <= k.total
  {
    && size != 0
    && (FitsNow(x.s, size)
        || k.total - |x.owner| >= GrowthFrames(Lacking(x.mem, k.root), x.s.end, GrowthPages(Round16(size))))
  }

  ghost predicate FreeFrom(k: Place, x: View, p: nat, n: nat) {
    p + n <= k.total && forall q :: p <= q < p + n ==> q !in x.owner
  }

  // Every free run of n pages straddles page h; of one page there is none.
  ghost predicate AllStraddle(k: Place, x: View, n: nat, h: nat) {
    forall p: nat :: FreeFrom(k, x, p, n) ==> p < h < p + n
  }

  // What each call does.
  ghost predicate Did(k: Place, x: View, e: Event, x': View)
    requires |x.owner| <= k.total
  {
    match e
    case AllocPage =>
      if |x.owner| == k.total then x' == x
      else exists p: nat :: p !in x.owner && x' == x.(owner := x.owner[p := Held], held := x.held + {p})
    case AllocPages(count) =>
      || (x' == x && (count == 0 || exists h: nat :: AllStraddle(k, x, count, h)))
      || exists p: nat :: FreeFrom(k, x, p, count)
           && x' == x.(owner := x.owner + RangeOwner(p, count, Held), held := x.held + PageRange(p, count))
    case FreePage(addr) => x' == x.(owner := x.owner - {addr / 4096}, held := x.held - {addr / 4096})
    case FreePages(addr, count) =>
      x' == x.(owner := x.owner - PageRange(addr / 4096, count), held := x.held - PageRange(addr / 4096, count))
    case MapPage(va, phys, flags) =>
      && x' == x.(mem := x'.mem, owner := x'.owner)
      && DidMap(k, x, va, phys, flags, x')
    case UnmapPage(va) => x' == x.(mem := x'.mem) && DidUnmap(k, x, va, x')
    case Kmalloc(size) => x'.held == x.held && DidAllocate(k, x, size, x')
    case Kfree(ptr) => x' == x.(s := Freed(x.s, ptr))
    case Kcalloc(num, size) => x'.held == x.held && DidAllocate(k, x, num * size % WORD_LIMIT, x')
    case Krealloc(ptr, size) => x'.held == x.held && exists r: nat :: Reallocated(x.s, x'.s, ptr, size, r)
  }

  // The page is mapped exactly when there are frames for the tables it lacks.
  ghost predicate DidMap(k: Place, x: View, va: word, phys: nat, flags: word, x': View)
    requires |x.owner| <= k.total
  {
    && phys < PHYS_LIMIT && FlagsOk(flags)
    && if k.total - |x.owner| >= Missing(x.mem, k.root, va) then
         && |x'.owner| == |x.owner| + Missing(x.mem, k.root, va)
         && Remaps(x.mem, x'.mem, k.root, 1, va, Hit(1, LeafEntry(phys, flags, false), Translate(x.mem, k.root, va).path))
       else SameWalks(x.mem, x'.mem, k.root, true)
  }

  ghost predicate DidUnmap(k: Place, x: View, va: word, x': View) {
    if Translate(x.mem, k.root, va).Hit? then Remaps(x.mem, x'.mem, k.root, 1, va, Fault(Translate(x.mem, k.root, va).path))
    else x'.mem == x.mem
  }

  // The request gets its block exactly when it can be served; live payloads stay.
  ghost predicate DidAllocate(k: Place, x: View, size: nat, x': View)
    requires |x.owner| <= k.total
  {
    exists ptr: nat :: Allocated(x.s, x'.s, size, ptr) && (ptr != 0 <==> ServedAt(k, x, size))
      && KeepsPayloads(x.s, x.data, x'.data, 0)
  }

  class MemorySystem {
    const heap: Heap
    ghost const layout: PmmInit.Layout
    // The pages handed to callers and not given back.
    var held: set<nat>

    // A valid heap over a valid address space, held pages owned as such, and the kernel's
    // and the bitmap's pages owned by the boot image.
    ghost predicate Valid()
      reads this, heap, heap.links, heap.vm, heap.vm.pmm, heap.vm.pmm.bitmap
    {
      heap.Valid() && HeldAreOwned(held, heap.vm.owner) && ReservedAreBoot(layout, heap.vm.pmm.totalPages, heap.vm.owner)
    }

    // The system kernel_init leaves.
    constructor (heap: Heap, ghost layout: PmmInit.Layout)
      requires heap.Valid() && ReservedAreBoot(layout, heap.vm.pmm.totalPages, heap.vm.owner)
      ensures this.heap == heap && this.layout == layout && held == {} && Valid()
    {
      hide Heap.Valid, ReservedAreBoot;
      this.heap, this.layout, this.held := heap, layout, {};
    }

    ghost function Seen(): View
      reads this, heap, heap.vm
    {
      View(heap.vm.mem, heap.vm.owner, heap.S(), heap.data, held)
    }

    ghost function At(): Place
      reads this, heap, heap.vm, heap.vm.pmm
    {
      Place(heap.vm.pmm.totalPages, heap.vm.root, heap.heapStart)
    }

    method AllocPage() returns (addr: nat)
      requires Valid()
      modifies this`held, heap.vm`owner, heap.vm.pmm`lastFreeIndex, heap.vm.pmm.bitmap
      ensures Valid() && KeepsFixed(old(heap.vm.owner), heap.vm.owner)
      ensures held == if addr == 0 then old(held) else old(held) + {addr / 4096}
      ensures addr != 0 ==> addr / 4096 !in old(held)
      ensures At() == old(At()) && |old(Seen()).owner| <= At().total && Did(At(), old(Seen()), Event.AllocPage, Seen())
    {
      hide *;
      Parts(this);
      Owned(this);
      ghost var owner, held0, x := heap.vm.owner, held, Seen();
      addr := heap.vm.TakeFrame(Held);
      if addr != 0 {
        held := held + {addr / 4096};
        FrameTaken(held0, owner, addr / 4096);
      } else {
        NothingFreed(held, owner);
      }
      SameMemoryKeepsPages(heap.vm.mem, heap.vm.root, owner, heap.vm.owner, heap.heapStart, heap.heapCurrent);
      Whole(this, owner);
      Owned(this);
      DidAllocPage(At(), x, addr, Seen());
    }

    method AllocPages(count: nat) returns (addr: nat)
      requires Valid()
      modifies this`held, heap.vm`owner, heap.vm.pmm`lastFreeIndex, heap.vm.pmm.bitmap
      ensures Valid() && KeepsFixed(old(heap.vm.owner), heap.vm.owner)
      ensures held == if addr == 0 then old(held) else old(held) + PageRange(addr / 4096, count)
      ensures addr != 0 ==> old(held) !! PageRange(addr / 4096, count)
      ensures At() == old(At()) && |old(Seen()).owner| <= At().total && Did(At(), old(Seen()), Event.AllocPages(count), Seen())
    {
      hide *;
      Parts(this);
      Owned(this);
      ghost var owner, held0, x := heap.vm.owner, held, Seen();
      addr := heap.vm.TakeFrames(count, Held);
      if addr != 0 {
        held := held + PageRange(addr / 4096, count);
        FramesTaken(held0, owner, addr / 4096, count);
      } else {
        NothingFreed(held, owner);
      }
      SameMemoryKeepsPages(heap.vm.mem, heap.vm.root, owner, heap.vm.owner, heap.heapStart, heap.heapCurrent);
      Whole(this, owner);
      Owned(this);
      DidAllocPages(At(), x, count, addr, Seen(), heap.vm.pmm.Used(), heap.vm.pmm.lastFreeIndex);
    }

    method FreePage(addr: word) returns (r: Outcome<bool>)
      requires Valid() && addr != 0 && addr % 4096 == 0 && addr / 4096 in held
      modifies this`held, heap.vm`owner, heap.vm.pmm`lastFreeIndex, heap.vm.pmm.bitmap
      ensures Valid() && KeepsFixed(old(heap.vm.owner), heap.vm.owner)
      ensures r == Returned(true) && held == old(held) - {addr / 4096}
      ensures At() == old(At()) && |old(Seen()).owner| <= At().total && Did(At(), old(Seen()), Event.FreePage(addr), Seen())
    {
      hide *;
      Parts(this);
      Owned(this);
      ghost var owner, held0, x := heap.vm.owner, held, Seen();
      FrameIsHeld(held, owner, addr / 4096);
      r := heap.vm.ReleaseFrame(addr);
      held := held - {addr / 4096};
      FrameFreed(held0, owner, addr / 4096);
      SameMemoryKeepsPages(heap.vm.mem, heap.vm.root, owner, heap.vm.owner, heap.heapStart, heap.heapCurrent);
      Whole(this, owner);
      Owned(this);
      DidFreePage(At(), x, addr, Seen());
    }

    method FreePages(addr: word, count: word) returns (r: Outcome<bool>)
      requires Valid() && addr != 0 && addr % 4096 == 0 && count != 0 && PageRange(addr / 4096, count) <= held
      modifies this`held, heap.vm`owner, heap.vm.pmm`lastFreeIndex, heap.vm.pmm.bitmap
      ensures Valid() && KeepsFixed(old(heap.vm.owner), heap.vm.owner)
      ensures r == Returned(true) && held == old(held) - PageRange(addr / 4096, count)
      ensures At() == old(At()) && |old(Seen()).owner| <= At().total && Did(At(), old(Seen()), Event.FreePages(addr, count), Seen())
    {
      hide *;
      Parts(this);
      Owned(this);
      ghost var owner, held0, x := heap.vm.owner, held, Seen();
      FramesAreHeld(held, owner, addr / 4096, count);
      r := heap.vm.ReleaseFrames(addr, count);
      held := held - PageRange(addr / 4096, count);
      FramesFreed(held0, owner, addr / 4096, count);
      SameMemoryKeepsPages(heap.vm.mem, heap.vm.root, owner, heap.vm.owner, heap.heapStart, heap.heapCurrent);
      Whole(this, owner);
      Owned(this);
      DidFreePages(At(), x, addr, count, Seen());
    }

    method MapPage(va: word, phys: nat, flags: word) returns (ok: bool)
      requires Valid() && MayMapAt(At(), Seen(), va) && phys < PHYS_LIMIT && FlagsOk(flags)
      modifies heap.vm`mem, heap.vm`owner, heap.vm.pmm`lastFreeIndex, heap.vm.pmm.bitmap
      ensures Valid() && KeepsFixed(old(heap.vm.owner), heap.vm.owner)
      ensures At() == old(At()) && |old(Seen()).owner| <= At().total
      ensures Did(At(), old(Seen()), Event.MapPage(va, phys, flags), Seen())
      ensures ok <==> old(heap.vm.Lacks(va)) <= At().total - |old(heap.vm.owner)|
    {
      hide *;
      Parts(this);
      Owned(this);
      LacksIs(heap.vm, va);
      MayMapIs(this, va);
      ghost var mem, owner, x := heap.vm.mem, heap.vm.owner, Seen();
      ok := heap.vm.MapPage(va, phys, flags);
      AddingExtends(owner, heap.vm.owner);
      ExtendingKeepsFixed(owner, heap.vm.owner);
      ExtendingKeepsHeld(held, owner, heap.vm.owner);
      if ok {
        SmallWalk(LeafEntry(phys, flags, false), Translate(mem, heap.vm.root, va).path);
        RemapKeepsPages(mem, heap.vm.mem, heap.vm.root, owner, heap.vm.owner, heap.heapStart, heap.heapCurrent, va,
          Hit(1, LeafEntry(phys, flags, false), Translate(mem, heap.vm.root, va).path));
      } else {
        SameWalksKeepPages(mem, heap.vm.mem, heap.vm.root, owner, heap.vm.owner, heap.heapStart, heap.heapCurrent);
      }
      Whole(this, owner);
      Owned(this);
      DidMapPage(At(), x, va, phys, flags, ok, Seen());
    }

    method UnmapPage(va: word) returns (ok: bool)
      requires Valid() && MayMapAt(At(), Seen(), va)
      modifies heap.vm`mem
      ensures Valid() && heap.vm.owner == old(heap.vm.owner)
      ensures ok <==> Translate(old(heap.vm.mem), heap.vm.root, va).Hit?
      ensures At() == old(At()) && |old(Seen()).owner| <= At().total && Did(At(), old(Seen()), Event.UnmapPage(va), Seen())
    {
      hide *;
      Parts(this);
      Owned(this);
      MayMapIs(this, va);
      ghost var mem, owner, x := heap.vm.mem, heap.vm.owner, Seen();
      NothingFreed(held, owner);
      ok := heap.vm.UnmapPage(va);
      if ok {
        NoWalkIsSmall(Translate(mem, heap.vm.root, va).path);
        RemapKeepsPages(mem, heap.vm.mem, heap.vm.root, owner, owner, heap.heapStart, heap.heapCurrent, va,
          Fault(Translate(mem, heap.vm.root, va).path));
      } else {
        SameMemoryKeepsPages(mem, heap.vm.root, owner, owner, heap.heapStart, heap.heapCurrent);
      }
      Whole(this, owner);
      Owned(this);
      DidUnmapPage(At(), x, va, Seen());
    }

    // Whether a call may be made, decided from the state the kernel has.
    method Allowed(e: Event) returns (b: bool)
      requires Valid()
      ensures b == MayCall(At(), Seen(), e)
    {
      hide Heap.Valid, Translate, HeldAreOwned, ReservedAreBoot;
      match e
      case AllocPage => b := true;
      case AllocPages(_) => b := true;
      case FreePage(addr) => b := addr != 0 && addr % 4096 == 0 && addr / 4096 in held;
      case FreePages(addr, count) => b := addr != 0 && addr % 4096 == 0 && count != 0 && PageRange(addr / 4096, count) <= held;
      case MapPage(va, phys, flags) => b := CanMap(va) && phys < PHYS_LIMIT && FlagsOk(flags);
      case UnmapPage(va) => b := CanMap(va);
      case Kmalloc(size) => b := CanServe(size);
      case Kfree(ptr) => b := ptr == 0 || (ptr >= HEADER_SIZE && ptr - HEADER_SIZE in heap.blocks);
      case Kcalloc(num, size) => b := CanServe(num * size % WORD_LIMIT);
      case Krealloc(ptr, size) =>
        b := CanServe(size);
        b := b && (ptr == 0 || (ptr >= HEADER_SIZE && ptr - HEADER_SIZE in heap.blocks && !heap.blocks[ptr - HEADER_SIZE].isFree));
    }

    predicate CanMap(va: word)
      reads this, heap, heap.vm
      ensures CanMap(va) == MayMapAt(At(), Seen(), va)
    {
      Canonical(va) && OutsideHeap(va, heap.heapStart, heap.heapCurrent) && !Translate(heap.vm.mem, heap.vm.root, va).IsLarge()
    }

    method CanServe(size: nat) returns (b: bool)
      requires Valid()
      ensures b == RoomAt(Seen(), size)
    {
      if size == 0 || heap.HasRoom(size) { return true; }
      hide Heap.PagesOk, Heap.BoundsOk, Vmm.Valid, Vmm.Rooted;
      var found, _, _ := heap.FindFit(Round16(size));
      b := found;
    }

    // One permitted call keeps the whole system valid and does what it should; only held
    // pages may lose their owner.
    method Perform(e: Event)
      requires Valid() && MayCall(At(), Seen(), e)
      modifies this`held, heap, heap.links, heap.vm`mem, heap.vm`owner, heap.vm.pmm`lastFreeIndex, heap.vm.pmm.bitmap
      ensures Valid() && KeepsFixed(old(heap.vm.owner), heap.vm.owner)
      ensures At() == old(At()) && |old(Seen()).owner| <= At().total && Did(At(), old(Seen()), e, Seen())
    {
      hide *;
      PermittedParts(this, e);
      NothingFreed(held, heap.vm.owner);
      match e
      case AllocPage =>
        var _ := AllocPage();
      case AllocPages(count) =>
        var _ := AllocPages(count);
      case FreePage(addr) =>
        var _ := FreePage(addr);
      case FreePages(addr, count) =>
        var _ := FreePages(addr, count);
      case MapPage(va, phys, flags) =>
        var _ := MapPage(va, phys, flags);
      case UnmapPage(va) =>
        var _ := UnmapPage(va);
      case Kmalloc(size) =>
        PerformKmalloc(size);
      case Kfree(ptr) =>
        PerformKfree(ptr);
      case Kcalloc(num, size) =>
        PerformKcalloc(num, size);
      case Krealloc(ptr, size) =>
        PerformKrealloc(ptr, size);
    }

    method PerformKmalloc(size: nat)
      requires Valid() && heap.RoomFor(size)
      modifies heap, heap.links, heap.vm`mem, heap.vm`owner, heap.vm.pmm`lastFreeIndex, heap.vm.pmm.bitmap
      ensures Valid() && KeepsFixed(old(heap.vm.owner), heap.vm.owner)
      ensures At() == old(At()) && |old(Seen()).owner| <= At().total && Did(At(), old(Seen()), Event.Kmalloc(size), Seen())
    {
      hide *;
      Parts(this);
      Owned(this);
      ServedIs(this, size);
      ghost var owner, x := heap.vm.owner, Seen();
      var ptr := heap.Kmalloc(size);
      HeapCallKeeps(this, owner);
      Owned(this);
      DidKmalloc(At(), x, size, ptr, Seen());
    }

    method PerformKfree(ptr: nat)
      requires Valid() && (ptr == 0 || HandedOut(heap.S(), ptr))
      modifies heap, heap.links
      ensures Valid() && heap.vm.owner == old(heap.vm.owner)
      ensures At() == old(At()) && |old(Seen()).owner| <= At().total && Did(At(), old(Seen()), Event.Kfree(ptr), Seen())
    {
      hide *;
      Parts(this);
      Owned(this);
      ghost var owner, x := heap.vm.owner, Seen();
      NothingMoved(heap.S(), heap.data, heap.vm.mem, owner, heap.vm.root, 0);
      heap.Kfree(ptr);
      HeapCallKeeps(this, owner);
      Owned(this);
      DidKfree(At(), x, ptr, Seen());
    }

    method PerformKcalloc(num: word, size: word)
      requires Valid() && heap.RoomFor(num * size % WORD_LIMIT)
      modifies heap, heap.links, heap.vm`mem, heap.vm`owner, heap.vm.pmm`lastFreeIndex, heap.vm.pmm.bitmap
      ensures Valid() && KeepsFixed(old(heap.vm.owner), heap.vm.owner)
      ensures At() == old(At()) && |old(Seen()).owner| <= At().total && Did(At(), old(Seen()), Event.Kcalloc(num, size), Seen())
    {
      hide *;
      Parts(this);
      Owned(this);
      ServedIs(this, num * size % WORD_LIMIT);
      ghost var owner, x := heap.vm.owner, Seen();
      var ptr := heap.Kcalloc(num, size);
      HeapCallKeeps(this, owner);
      Owned(this);
      DidKcalloc(At(), x, num, size, ptr, Seen());
    }

    method PerformKrealloc(ptr: nat, size: nat)
      requires Valid() && heap.RoomFor(size) && (ptr == 0 || IsLive(heap.S(), ptr))
      modifies heap, heap.links, heap.vm`mem, heap.vm`owner, heap.vm.pmm`lastFreeIndex, heap.vm.pmm.bitmap
      ensures Valid() && KeepsFixed(old(heap.vm.owner), heap.vm.owner)
      ensures At() == old(At()) && |old(Seen()).owner| <= At().total && Did(At(), old(Seen()), Event.Krealloc(ptr, size), Seen())
    {
      hide *;
      Parts(this);
      Owned(this);
      LiveIsHandedOut(heap, ptr);
      ghost var owner, x := heap.vm.owner, Seen();
      var r := heap.Krealloc(ptr, size);
      HeapCallKeeps(this, owner);
      Owned(this);
      DidKrealloc(At(), x, ptr, size, r, Seen());
    }

    // Any sequence of calls: each permitted one does what it should, the others are left
    // out, and the system stays valid throughout.
    method Run(events: seq<Event>) returns (ghost trace: seq<View>)
      requires Valid()
      modifies this`held, heap, heap.links, heap.vm`mem, heap.vm`owner, heap.vm.pmm`lastFreeIndex, heap.vm.pmm.bitmap
      ensures Valid() && KeepsFixed(old(heap.vm.owner), heap.vm.owner) && At() == old(At())
      ensures IsRun(At(), trace, events) && trace[0] == old(Seen()) && trace[|events|] == Seen()
    {
      hide *;
      NothingFreed(held, heap.vm.owner);
      trace := [Seen()];
      RunBegins(At(), Seen(), events);
      for i := 0 to |events|
        invariant Valid() && KeepsFixed(old(heap.vm.owner), heap.vm.owner) && At() == old(At())
        invariant |trace| == i + 1 && trace[0] == old(Seen()) && trace[i] == Seen() && IsRun(At(), trace, events[..i])
      {
        ghost var owner, x := heap.vm.owner, Seen();
        Owned(this);
        var allowed := Allowed(events[i]);
        if allowed {
          Perform(events[i]);
          FixedCompose(old(heap.vm.owner), owner, heap.vm.owner);
        }
        RunGoesOn(At(), trace, events, i, Seen());
        trace := trace + [Seen()];
      }
      assert events[..|events|] == events;
    }
  }

  // Each state follows from the one before by the next call, or is the same when that
  // call is not permitted.
  ghost predicate IsRun(k: Place, trace: seq<View>, events: seq<Event>) {
    |trace| == |events| + 1 && forall i :: 0 <= i < |events| ==> Follows(k, trace[i], events[i], trace[i + 1])
  }

  ghost predicate Follows(k: Place, x: View, e: Event, x': View) {
    |x.owner| <= k.total && if MayCall(k, x, e) then Did(k, x, e, x') else x' == x
  }

  lemma RunBegins(k: Place, x: View, events: seq<Event>)
    ensures IsRun(k, [x], events[..0])
  {
  }

  lemma RunGoesOn(k: Place, trace: seq<View>, events: seq<Event>, i: nat, x': View)
    requires i < |events| && |trace| == i + 1 && IsRun(k, trace, events[..i])
    requires |trace[i].owner| <= k.total && (MayCall(k, trace[i], events[i]) ==> Did(k, trace[i], events[i], x'))
    requires !MayCall(k, trace[i], events[i]) ==> x' == trace[i]
    ensures IsRun(k, trace + [x'], events[..i + 1])
  {
    hide MayCall, Did;
    var longer, more := trace + [x'], events[..i + 1];
    forall j | 0 <= j < |more|
      ensures Follows(k, longer[j], more[j], longer[j + 1])
    {
      if j < i {
        assert Follows(k, trace[j], events[..i][j], trace[j + 1]);
      }
    }
  }

  lemma Owned(k: MemorySystem)
    requires k.Valid()
    ensures k.heap.Valid() && k.Seen() == View(k.heap.vm.mem, k.heap.vm.owner, k.heap.S(), k.heap.data, k.held)
    ensures k.At() == Place(k.heap.vm.pmm.totalPages, k.heap.vm.root, k.heap.heapStart)
    ensures k.heap.S().end == k.heap.heapCurrent
    ensures k.heap.vm.pmm.Valid() && |k.heap.vm.owner| + k.heap.vm.Free() == k.heap.vm.pmm.totalPages
    ensures OwnsUsed(k.heap.vm.owner, k.heap.vm.pmm.Used()) && |k.heap.vm.pmm.Used()| == k.heap.vm.pmm.totalPages
  {
    OwnedAreCounted(k.heap.vm);
  }

  lemma DidAllocPage(k: Place, x: View, addr: nat, x': View)
    requires |x.owner| <= k.total && (addr == 0 <==> |x.owner| == k.total)
    requires addr == 0 ==> x' == x
    requires addr != 0 ==> (
      && addr / 4096 !in x.owner
      && x' == x.(owner := x.owner[addr / 4096 := Held], held := x.held + {addr / 4096}))
    ensures Did(k, x, Event.AllocPage, x')
  {
  }

  lemma DidAllocPages(k: Place, x: View, count: nat, addr: nat, x': View, used: seq<bool>, hint: nat)
    requires |x.owner| <= k.total && |used| == k.total && OwnsUsed(x'.owner, used)
    requires addr == 0 ==> x' == x
    requires count == 1 && addr == 0 ==> AllUsed(used)
    requires count >= 2 && addr == 0 ==> forall s: nat :: FreeRun(used, s, count) ==>
      s < SearchStart(hint, |used|) < s + count
    requires addr != 0 ==> (
      && (forall p :: addr / 4096 <= p < addr / 4096 + count ==> p !in x.owner)
      && x' == x.(owner := x.owner + RangeOwner(addr / 4096, count, Held), held := x.held + PageRange(addr / 4096, count)))
    ensures Did(k, x, Event.AllocPages(count), x')
  {
    hide *;
    if addr == 0 && count != 0 {
      OnlyStraddling(k, x, count, used, hint);
      NoRunTaken(k, x, count, SearchStart(hint, |used|));
    } else if count == 0 {
      NoPages(x, addr / 4096);
      NoRunTaken(k, x, count, 0);
    } else {
      RunTaken(k, x, addr / 4096, count, x', used);
    }
  }

  lemma NoPages(x: View, p: nat)
    ensures x.(owner := x.owner + RangeOwner(p, 0, Held), held := x.held + PageRange(p, 0)) == x
  {
    assert x.owner + RangeOwner(p, 0, Held) == x.owner;
    assert x.held + PageRange(p, 0) == x.held;
  }

  lemma NoRunTaken(k: Place, x: View, count: nat, h: nat)
    requires |x.owner| <= k.total && (count == 0 || AllStraddle(k, x, count, h))
    ensures Did(k, x, Event.AllocPages(count), x)
  {
    hide AllStraddle, FreeFrom;
  }

  lemma RunTaken(k: Place, x: View, p: nat, count: nat, x': View, used: seq<bool>)
    requires |x.owner| <= k.total && |used| == k.total && OwnsUsed(x'.owner, used) && count != 0
    requires forall q :: p <= q < p + count ==> q !in x.owner
    requires x' == x.(owner := x.owner + RangeOwner(p, count, Held), held := x.held + PageRange(p, count))
    ensures Did(k, x, Event.AllocPages(count), x')
  {
    assert p + count - 1 in x'.owner by {
      assert p + count - 1 in RangeOwner(p, count, Held);
    }
    hide RangeOwner, PageRange;
    assert FreeFrom(k, x, p, count);
  }

  lemma OnlyStraddling(k: Place, x: View, count: nat, used: seq<bool>, hint: nat)
    requires count != 0 && |used| == k.total && OwnsUsed(x.owner, used) && (count == 1 ==> AllUsed(used))
    requires count >= 2 ==> forall s: nat :: FreeRun(used, s, count) ==> s < SearchStart(hint, |used|) < s + count
    ensures AllStraddle(k, x, count, SearchStart(hint, |used|))
  {
    hide SearchStart;
    forall p: nat | FreeFrom(k, x, p, count)
      ensures p < SearchStart(hint, |used|) < p + count
    {
      assert !used[p];
      assert FreeRun(used, p, count);
    }
  }

  lemma DidFreePage(k: Place, x: View, addr: word, x': View)
    requires |x.owner| <= k.total && x' == x.(owner := x.owner - {addr / 4096}, held := x.held - {addr / 4096})
    ensures Did(k, x, Event.FreePage(addr), x')
  {
  }

  lemma DidFreePages(k: Place, x: View, addr: word, count: word, x': View)
    requires |x.owner| <= k.total
    requires x' == x.(owner := x.owner - PageRange(addr / 4096, count), held := x.held - PageRange(addr / 4096, count))
    ensures Did(k, x, Event.FreePages(addr, count), x')
  {
  }

  lemma DidMapPage(k: Place, x: View, va: word, phys: nat, flags: word, ok: bool, x': View)
    requires |x.owner| <= k.total && phys < PHYS_LIMIT && FlagsOk(flags) && x' == x.(mem := x'.mem, owner := x'.owner)
    requires ok <==> k.total - |x.owner| >= Missing(x.mem, k.root, va)
    requires ok ==> |x'.owner| == |x.owner| + Missing(x.mem, k.root, va)
    requires ok ==> Remaps(x.mem, x'.mem, k.root, 1, va, Hit(1, LeafEntry(phys, flags, false), Translate(x.mem, k.root, va).path))
    requires !ok ==> SameWalks(x.mem, x'.mem, k.root, true)
    ensures Did(k, x, Event.MapPage(va, phys, flags), x')
  {
    hide Remaps, SameWalks, Missing, FlagsOk;
  }

  lemma DidUnmapPage(k: Place, x: View, va: word, x': View)
    requires |x.owner| <= k.total && x' == x.(mem := x'.mem)
    requires Translate(x.mem, k.root, va).Hit? ==> Remaps(x.mem, x'.mem, k.root, 1, va, Fault(Translate(x.mem, k.root, va).path))
    requires !Translate(x.mem, k.root, va).Hit? ==> x'.mem == x.mem
    ensures Did(k, x, Event.UnmapPage(va), x')
  {
    hide Remaps, Translate;
  }

  lemma DidKmalloc(k: Place, x: View, size: nat, ptr: nat, x': View)
    requires |x.owner| <= k.total && x'.held == x.held && Allocated(x.s, x'.s, size, ptr)
    requires (ptr != 0 <==> ServedAt(k, x, size)) && KeepsPayloads(x.s, x.data, x'.data, 0)
    ensures Did(k, x, Event.Kmalloc(size), x')
  {
    hide Allocated, ServedAt, KeepsPayloads;
  }

  lemma DidKcalloc(k: Place, x: View, num: word, size: word, ptr: nat, x': View)
    requires |x.owner| <= k.total && x'.held == x.held && Allocated(x.s, x'.s, num * size % WORD_LIMIT, ptr)
    requires (ptr != 0 <==> ServedAt(k, x, num * size % WORD_LIMIT)) && KeepsPayloads(x.s, x.data, x'.data, 0)
    ensures Did(k, x, Event.Kcalloc(num, size), x')
  {
    hide Allocated, ServedAt, KeepsPayloads;
  }

  lemma DidKfree(k: Place, x: View, ptr: nat, x': View)
    requires |x.owner| <= k.total && x' == x.(s := Freed(x.s, ptr))
    ensures Did(k, x, Event.Kfree(ptr), x')
  {
    hide Freed;
  }

  lemma DidKrealloc(k: Place, x: View, ptr: nat, size: nat, r: nat, x': View)
    requires |x.owner| <= k.total && x'.held == x.held && Reallocated(x.s, x'.s, ptr, size, r)
    ensures Did(k, x, Event.Krealloc(ptr, size), x')
  {
    hide Reallocated;
  }

  lemma ServedIs(k: MemorySystem, size: nat)
    requires k.Valid() && k.heap.vm.pmm.Valid() && |k.heap.vm.owner| + k.heap.vm.Free() == k.heap.vm.pmm.totalPages
    ensures k.heap.Served(size) == ServedAt(k.At(), k.Seen(), size)
  {
    hide FitsNow, GrowthFrames, Missing, FreeCount, Heap.Valid, GrowthPages, Round16;
  }

  // A heap call keeps every owner.
  lemma HeapCallKeeps(k: MemorySystem, owner: map<nat, Owner>)
    requires k.heap.Valid() && Extends(owner, k.heap.vm.owner) && HeldAreOwned(k.held, owner)
    requires ReservedAreBoot(k.layout, k.heap.vm.pmm.totalPages, owner)
    ensures k.Valid() && KeepsFixed(owner, k.heap.vm.owner)
  {
    ExtendingKeepsFixed(owner, k.heap.vm.owner);
    ExtendingKeepsHeld(k.held, owner, k.heap.vm.owner);
    ReservedStay(k.layout, k.heap.vm.pmm.totalPages, owner, k.heap.vm.owner);
    hide Heap.Valid, Reserved;
  }

  // What a permitted call demands of the system.
  lemma PermittedParts(k: MemorySystem, e: Event)
    requires k.Valid() && MayCall(k.At(), k.Seen(), e)
    ensures match e
      case AllocPage => true
      case AllocPages(_) => true
      case FreePage(addr) => addr != 0 && addr % 4096 == 0 && addr / 4096 in k.held
      case FreePages(addr, count) => addr != 0 && addr % 4096 == 0 && count != 0 && PageRange(addr / 4096, count) <= k.held
      case MapPage(va, phys, flags) => MayMapAt(k.At(), k.Seen(), va) && phys < PHYS_LIMIT && FlagsOk(flags)
      case UnmapPage(va) => MayMapAt(k.At(), k.Seen(), va)
      case Kmalloc(size) => k.heap.RoomFor(size)
      case Kfree(ptr) => ptr == 0 || HandedOut(k.heap.S(), ptr)
      case Kcalloc(num, size) => k.heap.RoomFor(num * size % WORD_LIMIT)
      case Krealloc(ptr, size) => k.heap.RoomFor(size) && (ptr == 0 || IsLive(k.heap.S(), ptr))
  {
    hide Heap.Valid, FitsNow, GrowthPages, Round16, HandedOut, FlagsOk;
  }

  predicate IsLive(s: State, ptr: nat) {
    HandedOut(s, ptr) && !s.blocks[ptr - HEADER_SIZE].isFree
  }

  lemma LiveIsHandedOut(h: Heap, ptr: nat)
    requires ptr == 0 || IsLive(h.S(), ptr)
    ensures ptr == 0 || (HandedOut(h.S(), ptr) && !h.blocks[ptr - HEADER_SIZE].isFree)
  {
  }

  lemma FixedCompose(o0: map<nat, Owner>, o1: map<nat, Owner>, o2: map<nat, Owner>)
    requires KeepsFixed(o0, o1) && KeepsFixed(o1, o2)
    ensures KeepsFixed(o0, o2)
  {
  }

  lemma NothingFreed(held: set<nat>, owner: map<nat, Owner>)
    ensures KeepsFixed(owner, owner)
  {
  }

  lemma FrameTaken(held: set<nat>, owner: map<nat, Owner>, f: nat)
    requires HeldAreOwned(held, owner) && f !in owner
    ensures HeldAreOwned(held + {f}, owner[f := Held]) && KeepsFixed(owner, owner[f := Held]) && f !in held
  {
  }

  lemma FramesTaken(held: set<nat>, owner: map<nat, Owner>, start: nat, n: nat)
    requires HeldAreOwned(held, owner) && forall p :: start <= p < start + n ==> p !in owner
    ensures var owner' := owner + RangeOwner(start, n, Held);
      HeldAreOwned(held + PageRange(start, n), owner') && KeepsFixed(owner, owner')
    ensures held !! PageRange(start, n)
  {
  }

  lemma FrameIsHeld(held: set<nat>, owner: map<nat, Owner>, f: nat)
    requires HeldAreOwned(held, owner) && f in held
    ensures f in owner && owner[f] == Held
  {
  }

  lemma FramesAreHeld(held: set<nat>, owner: map<nat, Owner>, start: nat, n: nat)
    requires HeldAreOwned(held, owner) && PageRange(start, n) <= held
    ensures forall p :: start <= p < start + n ==> p in owner && owner[p] == Held
  {
    forall p | start <= p < start + n
      ensures p in owner && owner[p] == Held
    {
      assert p in PageRange(start, n);
    }
  }

  lemma FrameFreed(held: set<nat>, owner: map<nat, Owner>, f: nat)
    requires HeldAreOwned(held, owner) && f in held
    ensures HeldAreOwned(held - {f}, owner - {f}) && KeepsFixed(owner, owner - {f})
  {
  }

  lemma FramesFreed(held: set<nat>, owner: map<nat, Owner>, start: nat, n: nat)
    requires HeldAreOwned(held, owner) && PageRange(start, n) <= held
    ensures var pages := PageRange(start, n); HeldAreOwned(held - pages, owner - pages) && KeepsFixed(owner, owner - pages)
  {
  }

  lemma SmallWalk(e: word, path: Perm)
    ensures !Hit(1, e, path).IsLarge()
  {
  }

  lemma NoWalkIsSmall(path: Perm)
    ensures !Fault(path).IsLarge()
  {
  }

  lemma MayMapIs(k: MemorySystem, va: word)
    requires MayMapAt(k.At(), k.Seen(), va)
    ensures Canonical(va) && OutsideHeap(va, k.heap.heapStart, k.heap.heapCurrent)
    ensures !Translate(k.heap.vm.mem, k.heap.vm.root, va).IsLarge()
  {
  }

  predicate RootOwned(root: nat, owner: map<nat, Owner>) {
    root in owner && owner[root] == TableAt(4, 0)
  }

  // What a valid system is made of, and back.
  lemma Parts(k: MemorySystem)
    requires k.Valid()
    ensures k.heap.vm.Valid() && k.heap.vm.Rooted() && RootOwned(k.heap.vm.root, k.heap.vm.owner)
    ensures HeapPagesOk(k.heap.vm.mem, k.heap.vm.root, k.heap.vm.owner, k.heap.heapStart, k.heap.heapCurrent)
    ensures k.heap.ListOk() && k.heap.BoundsOk()
    ensures LOWEST_HEAP <= k.heap.heapStart <= k.heap.heapCurrent < WORD_LIMIT
    ensures k.heap.heapStart % 4096 == 0 && k.heap.heapCurrent % 4096 == 0
    ensures HeldAreOwned(k.held, k.heap.vm.owner)
    ensures ReservedAreBoot(k.layout, k.heap.vm.pmm.totalPages, k.heap.vm.owner)
    ensures !Held.TableAt?
  {
  }

  lemma Whole(k: MemorySystem, owner: map<nat, Owner>)
    requires k.heap.vm.Valid() && RootOwned(k.heap.vm.root, owner) && KeepsFixed(owner, k.heap.vm.owner)
    requires HeapPagesOk(k.heap.vm.mem, k.heap.vm.root, k.heap.vm.owner, k.heap.heapStart, k.heap.heapCurrent)
    requires k.heap.ListOk() && k.heap.BoundsOk()
    requires HeldAreOwned(k.held, k.heap.vm.owner)
    requires ReservedAreBoot(k.layout, k.heap.vm.pmm.totalPages, owner)
    ensures k.Valid()
  {
    hide Reserved, HeapMapped, NoLargeFrom, WellFormed, Vmm.PoolOwned;
    ReservedStay(k.layout, k.heap.vm.pmm.totalPages, owner, k.heap.vm.owner);
  }

  // ---- What holds in every state of every run ----

  lemma HeapFrameIsOwned(k: MemorySystem, v: nat)
    requires k.Valid() && k.heap.heapStart <= v < k.heap.heapCurrent && v % 4096 == 0
    ensures var w := Translate(k.heap.vm.mem, k.heap.vm.root, v);
      w.Hit? && FrameOf(w.entry) in k.heap.vm.owner && k.heap.vm.owner[FrameOf(w.entry)] == HeapPage(v)
  {
    assert PageOwned(k.heap.vm.mem, k.heap.vm.root, k.heap.vm.owner, v);
  }

  lemma OwnedAreUsed(k: MemorySystem)
    requires k.Valid()
    ensures k.heap.vm.pmm.Valid()
    ensures forall f :: f in k.heap.vm.owner ==> f < |k.heap.vm.pmm.Used()| && k.heap.vm.pmm.Used()[f]
  {
  }

  // Five kinds of frames: a page table on any walk, two different heap pages' frames, a
  // page of the kernel image or the bitmap, and a page handed to a caller. No two of them
  // are the same frame, and all are marked used.
  lemma FramesAreApart(k: MemorySystem, va: nat, t: nat, level: nat, path: Perm, a: nat, b: nat, p: nat, h: nat)
    requires k.Valid()
    requires 1 <= level <= 4 && Reaches(k.heap.vm.mem, k.heap.vm.root, 4, va, FULL_ACCESS, t, level, path)
    requires k.heap.heapStart <= a < k.heap.heapCurrent && a % 4096 == 0
    requires k.heap.heapStart <= b < k.heap.heapCurrent && b % 4096 == 0 && a != b
    requires p < k.heap.vm.pmm.totalPages && Reserved(k.layout, p) && h in k.held
    ensures k.heap.vm.pmm.Valid()
    ensures Translate(k.heap.vm.mem, k.heap.vm.root, a).Hit? && Translate(k.heap.vm.mem, k.heap.vm.root, b).Hit?
    ensures var x, y := FrameOf(Translate(k.heap.vm.mem, k.heap.vm.root, a).entry),
                        FrameOf(Translate(k.heap.vm.mem, k.heap.vm.root, b).entry);
      Distinct([t, x, y, p, h]) && AllMarked([t, x, y, p, h], k.heap.vm.pmm.Used())
  {
    hide *;
    Parts(k);
    var vm := k.heap.vm;
    TableFramesAreDistinct(vm, va, t, level, path, va, t, level, path);
    HeapFrameIsOwned(k, a);
    HeapFrameIsOwned(k, b);
    FrameIsHeld(k.held, vm.owner, h);
    ReservedIsBoot(k.layout, vm.pmm.totalPages, vm.owner, p);
    OwnedAreUsed(k);
    var x, y := FrameOf(Translate(vm.mem, vm.root, a).entry), FrameOf(Translate(vm.mem, vm.root, b).entry);
    OwnersDiffer(vm.owner, t, x, a, y, b, p, h);
    MarkedAre([t, x, y, p, h], vm.pmm.Used());
  }

  ghost predicate AllMarked(frames: seq<nat>, used: seq<bool>) {
    forall i :: 0 <= i < |frames| ==> frames[i] < |used| && used[frames[i]]
  }

  lemma MarkedAre(frames: seq<nat>, used: seq<bool>)
    requires forall f :: f in frames ==> f < |used| && used[f]
    ensures AllMarked(frames, used)
  {
    forall i | 0 <= i < |frames|
      ensures frames[i] < |used| && used[frames[i]]
    {
      assert frames[i] in frames;
    }
  }

  lemma ReservedIsBoot(l: PmmInit.Layout, total: nat, owner: map<nat, Owner>, p: nat)
    requires ReservedAreBoot(l, total, owner) && p < total && Reserved(l, p)
    ensures p in owner && owner[p] == Owner.Boot
  {
  }

  lemma OwnersDiffer(owner: map<nat, Owner>, t: nat, x: nat, a: nat, y: nat, b: nat, p: nat, h: nat)
    requires IsTable(owner, t) && x in owner && y in owner && p in owner && h in owner
    requires owner[x] == HeapPage(a) && owner[y] == HeapPage(b) && a != b && owner[p] == Owner.Boot && owner[h] == Held
    ensures Distinct([t, x, y, p, h]) && forall f :: f in [t, x, y, p, h] ==> f in owner
  {
  }

  // kernel_init followed by any sequence of calls. The kernel comes up exactly when the
  // page allocator can be set up, the back buffer finds its run, and there are frames for
  // the tables of the boot address space; then every permitted call does what it should
  // and the system is valid.
  method BootAndRun(pmm: Pmm, links: ListMemory, memory: Paging.Memory, m: PmmInit.MemMap, k: Boot.Kernel,
                    fb: Option<Boot.FrameBuffer>, hhdm: nat, cr3: nat, backBufferPages: nat, freeHead: nat, heapSymbol: nat,
                    events: seq<Event>)
    returns (system: MemorySystem?, ghost used0: seq<bool>, ghost trace: seq<View>)
    requires PmmInit.NoWrap(m) && PageZeroReserved(m) && Boot.BootLayout(m, k, fb, hhdm)
    requires forall p: nat :: p < FRAME_LIMIT ==> p in memory
    requires freeHead < heapSymbol && Boot.KERNEL_BASE <= heapSymbol && heapSymbol + 4096 < WORD_LIMIT
    requires Boot.PageUp(k.data.end) <= heapSymbol && pmm.lastFreeIndex == 0
    modifies pmm, links
    ensures system == null <==> (
      || PmmInit.CannotInit(m, k.physicalBase)
      || NoRunOf(used0, backBufferPages)
      || FreeCount(used0) < backBufferPages + 1 + Boot.BootFrames(Boot.BootRanges(m, k, fb, hhdm)))
    ensures system != null ==> UsedAtFirst(m, system.layout, used0) && PmmInit.CoversMap(m, |used0|)
    ensures system != null ==> fresh(system) && system.Valid() && system.heap.vm.pmm == pmm
    ensures system != null ==> IsRun(system.At(), trace, events) && trace[|events|] == system.Seen()
  {
    hide *;
    var heap;
    ghost var l;
    trace := [];
    heap, l, used0 := InitMemory(pmm, links, memory, m, k, fb, hhdm, cr3, backBufferPages, freeHead, heapSymbol);
    if heap == null {
      system := null;
      return;
    }
    var up := new MemorySystem(heap, l);
    trace := up.Run(events);
    system := up;
  }
}
