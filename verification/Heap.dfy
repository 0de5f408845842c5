// The kernel heap of src/kernel/memory/heap.c: first fit over an intrusive free list,
// growing through the page allocator and the page tables.
module Heap {
  import opened Wrappers
  import opened Words
  import opened Pmm
  import opened Paging
  import opened MissingTables
  import opened Vmm
  import opened Lists
  import opened HeapBlocks

  const LOWEST_HEAP: nat := 0xFFFF_8000_0000_0000

  // VMM_FLAG_PRESENT | VMM_FLAG_WRITABLE
  const HEAP_FLAGS: nat := 3

  // The heap page at v is mapped, writable for the kernel only, to a frame owned by
  // exactly this page.
  ghost predicate PageOwned(mem: Memory, root: nat, owner: map<nat, Owner>, v: nat) {
    var w := Translate(mem, root, v);
    && w.Hit? && w.level == 1 && w.Rights() == Perm(true, false, false)
    && FrameOf(w.entry) in owner && owner[FrameOf(w.entry)] == HeapPage(v)
  }

  ghost predicate HeapMapped(mem: Memory, root: nat, owner: map<nat, Owner>, start: nat, end: nat) {
    forall v: nat :: start <= v < end && v % 4096 == 0 ==> PageOwned(mem, root, owner, v)
  }

  ghost predicate NoLargeFrom(mem: Memory, root: nat, from: nat) {
    forall v: nat :: from <= v < WORD_LIMIT ==> !Translate(mem, root, v).IsLarge()
  }

  // Every address below the limit is translated as before.
  ghost predicate SameBelow(mem: Memory, mem': Memory, root: nat, limit: nat) {
    forall v: nat :: Canonical(v) && v < limit ==> Translate(mem', root, v) == Translate(mem, root, v)
  }

  lemma SameBelowCompose(m0: Memory, m1: Memory, m2: Memory, root: nat, limit: nat)
    requires SameBelow(m0, m1, root, limit) && SameBelow(m1, m2, root, limit)
    ensures SameBelow(m0, m2, root, limit)
  {
    hide Translate, Canonical;
  }

  lemma RemapIsAbove(mem: Memory, mem': Memory, root: nat, va: nat, w: Walk, limit: nat)
    requires Remaps(mem, mem', root, 1, va, w) && Canonical(va) && va % 4096 == 0 && limit <= va
    ensures SameBelow(mem, mem', root, limit)
  {
    hide Translate, Canonical, Prefix;
    forall v: nat | Canonical(v) && v < limit
      ensures Translate(mem', root, v) == Translate(mem, root, v)
    {
      CanonicalSlot(1, v, va);
      assert v / Span(1) != va / Span(1);
    }
  }

  lemma SameWalksAreBelow(mem: Memory, mem': Memory, root: nat, limit: nat)
    requires SameWalks(mem, mem', root, true)
    ensures SameBelow(mem, mem', root, limit)
  {
    hide Translate, Canonical;
    forall v: nat | Canonical(v) && v < limit
      ensures Translate(mem', root, v) == Translate(mem, root, v)
    {
      SameWalkAt(mem, mem', root, true, v);
    }
  }

  // Distinct heap pages have distinct frames, none of which is a page table.
  lemma HeapFramesAreDistinct(mem: Memory, root: nat, owner: map<nat, Owner>, start: nat, end: nat, a: nat, b: nat)
    requires HeapMapped(mem, root, owner, start, end)
    requires start <= a < end && start <= b < end && a % 4096 == 0 && b % 4096 == 0 && a != b
    ensures Translate(mem, root, a).Hit? && Translate(mem, root, b).Hit?
    ensures FrameOf(Translate(mem, root, a).entry) != FrameOf(Translate(mem, root, b).entry)
    ensures FrameOf(Translate(mem, root, a).entry) in owner && !IsTable(owner, FrameOf(Translate(mem, root, a).entry))
  {
    assert PageOwned(mem, root, owner, a) && PageOwned(mem, root, owner, b);
  }

  lemma HeapFlagFacts()
    ensures FlagsOk(HEAP_FLAGS) && Writable(HEAP_FLAGS) && !User(HEAP_FLAGS) && !NoExecute(HEAP_FLAGS)
  {
    SmallHasNoHighBit(3, 2, 63);
    assert Bit(3, 1) && !Bit(3, 2);
  }

  // One page of heap growth: a fresh frame owned by this page, then its mapping.
  lemma HeapPageMapped(mem: Memory, mem': Memory, root: nat, owner: map<nat, Owner>, owner': map<nat, Owner>,
                       start: nat, from: nat, x: nat, addr: nat, path: Perm)
    requires LOWEST_HEAP <= start <= from <= x && x + 4096 < WORD_LIMIT && x % 4096 == 0
    requires HeapMapped(mem, root, owner, start, x) && NoLargeFrom(mem, root, from)
    requires Extends(owner, owner') && addr < PHYS_LIMIT && FlagsOk(HEAP_FLAGS)
    requires addr / 4096 in owner' && owner'[addr / 4096] == HeapPage(x)
    requires path.w && !path.nx
    requires Remaps(mem, mem', root, 1, x, Hit(1, LeafEntry(addr, HEAP_FLAGS, false), path))
    ensures HeapMapped(mem', root, owner', start, x + 4096) && NoLargeFrom(mem', root, from)
  {
    hide Translate, LeafEntry, FlagsOk, Bit, FrameOf, Canonical, Prefix;
    HeapFlagFacts();
    LeafEntryBits(addr, HEAP_FLAGS, false);
    var w := Hit(1, LeafEntry(addr, HEAP_FLAGS, false), path);
    UpperHalfIsCanonical(x);
    forall v: nat | start <= v < x + 4096 && v % 4096 == 0
      ensures PageOwned(mem', root, owner', v)
    {
      UpperHalfIsCanonical(v);
      CanonicalSlot(1, v, x);
      if v == x {
        assert Translate(mem', root, v) == w;
      } else {
        PagesDiffer(v, x);
        assert PageOwned(mem, root, owner, v);
        assert Translate(mem', root, v) == Translate(mem, root, v);
      }
    }
  }

  lemma UpperHalfIsCanonical(v: nat)
    requires LOWEST_HEAP <= v < WORD_LIMIT
    ensures Canonical(v)
  {
  }

  lemma PagesDiffer(v: nat, x: nat)
    requires v < x + 4096 && v % 4096 == 0 && x % 4096 == 0 && v != x
    ensures v < x && v / Span(1) != x / Span(1)
  {
  }

  // Growing the ownership or changing no walk keeps the heap's pages.
  lemma HeapPagesKept(mem: Memory, mem': Memory, root: nat, owner: map<nat, Owner>, owner': map<nat, Owner>,
                      start: nat, end: nat, from: nat)
    requires HeapMapped(mem, root, owner, start, end) && NoLargeFrom(mem, root, from)
    requires Extends(owner, owner') && SameWalks(mem, mem', root, true)
    ensures HeapMapped(mem', root, owner', start, end) && NoLargeFrom(mem', root, from)
  {
    hide Translate, FrameOf, Walk.Rights;
    forall v: nat | start <= v < end && v % 4096 == 0
      ensures PageOwned(mem', root, owner', v)
    {
      assert PageOwned(mem, root, owner, v);
      SameWalkAt(mem, mem', root, true, v);
    }
    forall v: nat | from <= v < WORD_LIMIT
      ensures !Translate(mem', root, v).IsLarge()
    {
      SameWalkAt(mem, mem', root, true, v);
    }
  }

  type Bytes = nat -> byte

  // Writing a block header overwrites the bytes under it.
  function Clobber(data: Bytes, at: nat): Bytes {
    (x: nat) => if at <= x < at + HEADER_SIZE then 0 else data(x)
  }

  // The payload bytes of every live block but the one at b are unchanged.
  ghost predicate KeepsPayloads(s: State, data: Bytes, data': Bytes, b: nat) {
    forall c, x: nat :: c in s.blocks && !s.blocks[c].isFree && c != b && c + HEADER_SIZE <= x < BlockEnd(s.blocks, c)
      ==> data'(x) == data(x)
  }

  // The whole pages a growth for size bytes takes.
  function GrowthPages(size: nat): nat {
    (size + HEADER_SIZE + 4095) / 4096
  }

  lemma GrowthFits(size: nat)
    requires size % 16 == 0 && size >= 16
    ensures var bytes := GrowthPages(size) * 4096;
      bytes % 16 == 0 && bytes >= HEADER_SIZE + 16 && bytes - HEADER_SIZE >= size && bytes < size + HEADER_SIZE + 4096
  {
    var pages := GrowthPages(size);
    assert pages * 4096 >= size + HEADER_SIZE;
    assert pages * 4096 == 16 * (pages * 256);
  }

  // The frames n heap pages from start on take: one for each page, and those for the
  // tables it lacks once the pages before it have theirs.
  function GrowthFrames(lack: nat -> nat, start: nat, n: nat): nat {
    if n == 0 then 0
    else
      var va := start + (n - 1) * 4096;
      GrowthFrames(lack, start, n - 1) + 1 + Min(lack(va), Touched(start, va, va))
  }

  lemma {:induction false} FramesGrow(lack: nat -> nat, start: nat, i: nat, n: nat)
    requires i <= n
    ensures GrowthFrames(lack, start, i) <= GrowthFrames(lack, start, n)
    decreases n
  {
    if i < n {
      FramesGrow(lack, start, i, n - 1);
    }
  }

  lemma NoPagesGrown(mem: Memory, root: nat, start: nat)
    ensures GrowthFrames(Lacking(mem, root), start, 0) == 0 && LackingAfter(Lacking(mem, root), mem, root, start, start)
  {
    hide Missing;
  }

  // What the next page takes is one frame and what its address lacks now.
  lemma PageGrown(lack: nat -> nat, mem: Memory, root: nat, start: nat, i: nat, n: nat)
    requires i < n && LOWEST_HEAP <= start && start + n * 4096 < WORD_LIMIT
    requires LackingAfter(lack, mem, root, start, start + i * 4096)
    ensures GrowthFrames(lack, start, i + 1) == GrowthFrames(lack, start, i) + 1 + Missing(mem, root, start + i * 4096)
    ensures GrowthFrames(lack, start, i + 1) <= GrowthFrames(lack, start, n)
  {
    hide Missing, Touched;
    FramesGrow(lack, start, i + 1, n);
    UpperHalfIsCanonical(start + i * 4096);
  }

  lemma NextPageGrown(lack: nat -> nat, m1: Memory, m2: Memory, root: nat, start: nat, i: nat)
    requires LOWEST_HEAP <= start && start % 4096 == 0 && start + (i + 1) * 4096 < WORD_LIMIT
    requires LackingAfter(lack, m1, root, start, start + i * 4096) && Fewer(m1, m2, root, start + i * 4096, 0)
    ensures LackingAfter(lack, m2, root, start, start + (i + 1) * 4096)
  {
    hide Missing, Touched, Canonical, Parting;
    var va := start + i * 4096;
    PageEnds(start, i);
    forall v: nat | Canonical(v)
      ensures Missing(m2, root, v) == Min(lack(v), Touched(start, va + 4096, v))
    {
      assert Missing(m1, root, v) == Min(lack(v), Touched(start, va, v));
      TouchedGrows(start, va, va + 4096, v);
      if va <= v < va + 4096 {
        OnePage(va, v);
      }
    }
  }

  lemma PageEnds(start: nat, i: nat)
    requires LOWEST_HEAP <= start && start % 4096 == 0 && start + (i + 1) * 4096 < WORD_LIMIT
    ensures var va := start + i * 4096;
      && va % 4096 == 0 && va + 4096 == start + (i + 1) * 4096
      && Canonical(start) && Canonical(va) && Canonical(va + 4095) && (start < va ==> Canonical(va - 1))
      && Parting(va, va + 4095) == 0 && Prefix(1, va) == Prefix(1, va + 4095)
  {
    GrowthAligned(start, i);
    var va := start + i * 4096;
    UpperHalfIsCanonical(start);
    UpperHalfIsCanonical(va);
    UpperHalfIsCanonical(va + 4095);
    if start < va {
      UpperHalfIsCanonical(va - 1);
    }
    OnePage(va, va + 4095);
    PrefixesShared(va, va + 4095, 0);
  }

  // After growing for a request that fitted nowhere, the new block is its first fit.
  lemma ExpandThenFits(s: State, start: nat, size: nat)
    requires HeapOk(s, start) && size % 16 == 0 && size >= 16
    requires FirstFit(s.blocks, s.free, size).None?
    ensures var s' := Expand(s, GrowthPages(size) * 4096);
      FirstFit(s'.blocks, s'.free, size) == Some(|s.free|)
  {
    GrowthFits(size);
    EndIsNew(s.blocks, start, s.end);
    var s' := Expand(s, GrowthPages(size) * 4096);
    FreeAreBlocks(s, start);
    hide HeapOk, FirstFit, GrowthPages;
    assert forall i :: 0 <= i < |s.free| ==> s'.free[i] == s.free[i] && s.free[i] in s.free && s'.free[i] in s'.free;
    assert s'.free[|s.free|] == s.end;
    FirstFitIs(s'.blocks, s'.free, size, |s.free|);
  }

  class Heap {
    const vm: Vmm
    const links: ListMemory
    // The address of free_list, and where the heap begins.
    const freeHead: nat
    const heapStart: nat
    var heapCurrent: nat
    var blocks: Blocks
    var data: Bytes
    ghost var free: seq<nat>

    ghost function S(): State
      reads this
    {
      State(blocks, free, heapCurrent)
    }

    ghost predicate PagesOk()
      reads this, vm
    {
      && HeapMapped(vm.mem, vm.root, vm.owner, heapStart, heapCurrent)
      && NoLargeFrom(vm.mem, vm.root, heapCurrent)
    }

    ghost predicate ListOk()
      reads this, links
    {
      && links.Holds(freeHead, free)
      && HeapOk(State(blocks, free, heapCurrent), heapStart)
      && freeHead < heapStart
    }

    ghost predicate BoundsOk()
      reads this
    {
      LOWEST_HEAP <= heapStart <= heapCurrent < WORD_LIMIT && heapStart % 4096 == 0 && heapCurrent % 4096 == 0
    }

    ghost predicate Valid()
      reads this, links, vm, vm.pmm, vm.pmm.bitmap
    {
      vm.Valid() && vm.Rooted() && PagesOk() && ListOk() && BoundsOk()
    }

    // heap_init, with the empty list head the linker data holds.
    constructor (vm: Vmm, links: ListMemory, freeHead: nat, heapSymbol: nat)
      requires vm.Valid() && vm.Rooted()
      requires freeHead < heapSymbol && LOWEST_HEAP <= heapSymbol && heapSymbol + 4096 < WORD_LIMIT
      requires NoLargeFrom(vm.mem, vm.root, heapSymbol)
      modifies links
      ensures Valid() && this.vm == vm && this.links == links
      ensures S() == State(map[], [], (heapSymbol + 4095) / 4096 * 4096) && heapStart == S().end
    {
      hide Vmm.Valid, Vmm.Rooted, ListMemory.Holds, HeapMapped, NoLargeFrom, HeapOk;
      HeapBegins(vm.mem, vm.root, vm.owner, heapSymbol);
      this.vm, this.links, this.freeHead := vm, links, freeHead;
      this.heapStart, this.heapCurrent := (heapSymbol + 4095) / 4096 * 4096, (heapSymbol + 4095) / 4096 * 4096;
      this.blocks, this.free, this.data := map[], [], _ => 0;
      new;
      links.InitListHead(freeHead);
    }

    // One page of a growth: a fresh frame, mapped at va.
    method MapOne(va: nat) returns (ok: bool)
      requires vm.Valid() && vm.Rooted() && BoundsOk()
      requires heapCurrent <= va && va + 4096 < WORD_LIMIT && va % 4096 == 0
      requires HeapMapped(vm.mem, vm.root, vm.owner, heapStart, va) && NoLargeFrom(vm.mem, vm.root, heapCurrent)
      modifies vm`mem, vm`owner, vm.pmm`lastFreeIndex, vm.pmm.bitmap
      ensures vm.Valid() && vm.Rooted() && Extends(old(vm.owner), vm.owner)
      ensures HeapMapped(vm.mem, vm.root, vm.owner, heapStart, if ok then va + 4096 else va)
      ensures NoLargeFrom(vm.mem, vm.root, heapCurrent)
      ensures SameBelow(old(vm.mem), vm.mem, vm.root, heapCurrent)
      ensures !ok ==> AllUsed(vm.pmm.Used())
      ensures ok <==> old(vm.Free()) >= 1 + old(vm.Lacks(va))
      ensures ok ==> vm.Free() + 1 + old(vm.Lacks(va)) == old(vm.Free()) && Fewer(old(vm.mem), vm.mem, vm.root, va, 0)
    {
      hide HeapMapped, SameBelow, Canonical, Vmm.Valid, AddsTables, AllUsed, SameWalks, Remaps, Translate, LeafEntry, Bit, Prefix,
        Missing, Fewer, FreeCount;
      ghost var m0, o0 := vm.mem, vm.owner;
      NothingChanges(m0, o0, vm.root, true);
      SameWalksAreBelow(m0, m0, vm.root, heapCurrent);
      UpperHalfIsCanonical(va);
      var addr := vm.TakeFrame(HeapPage(va));
      if addr == 0 { return false; }
      ghost var o1 := vm.owner;
      HeapFlagFacts();
      PathOfPage(vm, va);
      assert !Translate(vm.mem, vm.root, va).IsLarge();
      ghost var path := Translate(vm.mem, vm.root, va).path;
      ok := vm.MapPage(va, addr, HEAP_FLAGS);
      AddingExtends(o1, vm.owner);
      assert addr / 4096 in o1;
      hide NoLargeFrom;
      if ok {
        RemapIsAbove(m0, vm.mem, vm.root, va, Hit(1, LeafEntry(addr, HEAP_FLAGS, false), path), heapCurrent);
        HeapPageMapped(m0, vm.mem, vm.root, o0, vm.owner, heapStart, heapCurrent, va, addr, path);
      } else {
        SameWalksAreBelow(m0, vm.mem, vm.root, heapCurrent);
        HeapPagesKept(m0, vm.mem, vm.root, o0, vm.owner, heapStart, va, heapCurrent);
      }
    }

    // Maps the pages of a growth; on failure the pages mapped so far stay behind,
    // beyond the end of the heap.
    method MapPages(pages: nat) returns (ok: bool)
      requires vm.Valid() && vm.Rooted() && PagesOk() && BoundsOk() && heapCurrent + pages * 4096 < WORD_LIMIT
      modifies vm`mem, vm`owner, vm.pmm`lastFreeIndex, vm.pmm.bitmap
      ensures vm.Valid() && vm.Rooted() && PagesOk() && Extends(old(vm.owner), vm.owner)
      ensures ok ==> HeapMapped(vm.mem, vm.root, vm.owner, heapStart, heapCurrent + pages * 4096)
      ensures SameBelow(old(vm.mem), vm.mem, vm.root, heapCurrent)
      ensures !ok ==> AllUsed(vm.pmm.Used())
      ensures ok <==> old(vm.Free()) >= GrowthFrames(Lacking(old(vm.mem), vm.root), heapCurrent, pages)
    {
      hide HeapMapped, NoLargeFrom, Vmm.Valid, Vmm.Rooted, AllUsed, SameBelow, SameWalks, GrowthFrames, Missing, LackingAfter,
        Vmm.Free, Vmm.Lacks, Touched;
      PoolParts(vm);
      ghost var lack, free0 := Lacking(vm.mem, vm.root), vm.Free();
      NoPagesGrown(vm.mem, vm.root, heapCurrent);
      NothingChanges(vm.mem, vm.owner, vm.root, true);
      SameWalksAreBelow(vm.mem, vm.mem, vm.root, heapCurrent);
      for i := 0 to pages
        invariant SameBelow(old(vm.mem), vm.mem, vm.root, heapCurrent)
        invariant vm.Valid() && vm.Rooted() && Extends(old(vm.owner), vm.owner)
        invariant HeapMapped(vm.mem, vm.root, vm.owner, heapStart, heapCurrent + i * 4096)
        invariant NoLargeFrom(vm.mem, vm.root, heapCurrent)
        invariant vm.pmm.Valid() && vm.Free() + GrowthFrames(lack, heapCurrent, i) == free0
        invariant LackingAfter(lack, vm.mem, vm.root, heapCurrent, heapCurrent + i * 4096)
      {
        ghost var m1, o1 := vm.mem, vm.owner;
        LacksIs(vm, heapCurrent + i * 4096);
        PageGrown(lack, m1, vm.root, heapCurrent, i, pages);
        PageAddress(heapCurrent, i, pages);
        ok := MapOne(heapCurrent + i * 4096);
        ExtendsCompose(old(vm.owner), o1, vm.owner);
        SameBelowCompose(old(vm.mem), m1, vm.mem, vm.root, heapCurrent);
        PoolParts(vm);
        if ok {
          NextPageGrown(lack, m1, vm.mem, vm.root, heapCurrent, i);
        }
        if !ok {
          HeapMappedLess(vm.mem, vm.root, vm.owner, heapStart, heapCurrent, heapCurrent + i * 4096);
          return;
        }
      }
      HeapMappedLess(vm.mem, vm.root, vm.owner, heapStart, heapCurrent, heapCurrent + pages * 4096);
      return true;
    }

    // Room for one growth below the top of the address space.
    predicate HasRoom(size: nat)
      reads this
    {
      heapCurrent + GrowthPages(Round16(size)) * 4096 < WORD_LIMIT
    }

    method ExpandHeap(size: nat) returns (ok: bool)
      requires Valid() && HasRoom(size) && size % 16 == 0 && size >= 16
      modifies this, links, vm`mem, vm`owner, vm.pmm`lastFreeIndex, vm.pmm.bitmap
      ensures Valid() && Extends(old(vm.owner), vm.owner)
      ensures SameBelow(old(vm.mem), vm.mem, vm.root, old(heapCurrent))
      ensures KeepsPayloads(old(S()), old(data), data, 0)
      ensures !ok ==> S() == old(S()) && AllUsed(vm.pmm.Used())
      ensures ok <==> old(vm.Free()) >= GrowthFrames(Lacking(old(vm.mem), vm.root), old(heapCurrent), GrowthPages(size))
      ensures ok ==> S() == Expand(old(S()), GrowthPages(size) * 4096)
    {
      hide HeapOk, HeapMapped, NoLargeFrom, Vmm.Valid, Vmm.Rooted, AllUsed, SameBelow, Extends, IsList, GrowthFrames, Missing,
        Vmm.Free;
      var pages := (size + HEADER_SIZE + 4095) / 4096;
      var bytes := pages * 4096;
      GrowthFits(size);
      ok := MapPages(pages);
      if !ok { return; }
      ghost var s0 := S();
      var block := heapCurrent;
      ExpandIsClear(s0, heapStart, freeHead, data, block);
      ExpandKeepsHeap(s0, heapStart, bytes);
      heapCurrent := heapCurrent + bytes;
      data := Clobber(data, block);
      blocks := blocks[block := Block(bytes - HEADER_SIZE, true)];
      links.AddTail(block, freeHead, free);
      free := free + [block];
      GrowthAligned(block, pages);
      NoLargeFurther(vm.mem, vm.root, block, heapCurrent);
    }

    // A new free block after the first size payload bytes of a block, put first on
    // the free list.
    method CutBlock(block: nat, size: nat)
      requires links.Holds(freeHead, free) && block in blocks && blocks[block].size >= size + HEADER_SIZE
      requires block + HEADER_SIZE + size !in Ring(freeHead, free)
      modifies this`blocks, this`data, this`free, links
      ensures blocks == old(blocks)[block + HEADER_SIZE + size := Block(old(blocks)[block].size - size - HEADER_SIZE, true)]
                                   [block := old(blocks)[block].(size := size)]
      ensures free == [block + HEADER_SIZE + size] + old(free) && data == Clobber(old(data), block + HEADER_SIZE + size)
      ensures links.Holds(freeHead, free)
    {
      hide ListMemory.Holds, Ring, Clobber;
      var remainder := block + HEADER_SIZE + size;
      data := Clobber(data, remainder);
      blocks := blocks[remainder := Block(blocks[block].size - size - HEADER_SIZE, true)];
      links.Add(remainder, freeHead, free);
      free := [remainder] + free;
      blocks := blocks[block := blocks[block].(size := size)];
    }

    // The body of the list walk once a block fits: unlink it, split off what is left
    // when that is worth a block of its own, and mark it live.
    method TakeBlock(curr: nat, size: nat, ghost i: nat)
      requires ListOk() && i < |free| && free[i] == curr && curr in blocks && blocks[curr].size >= size
      requires size % 16 == 0 && size >= 16
      modifies this`blocks, this`data, this`free, links
      ensures ListOk() && S() == Take(old(S()), i, size)
      ensures KeepsPayloads(old(S()), old(data), data, 0)
    {
      hide *;
      ghost var s0 := S();
      StateIs(this);
      TakeKeepsHeap(s0, heapStart, i, size);
      TakeIsClear(s0, heapStart, freeHead, data, i, size);
      TakeIs(s0, i, size);
      FreeBlockIs(s0, heapStart, i);
      links.Del(curr, freeHead, free, i);
      free := Without(free, i);
      if blocks[curr].size >= size + HEADER_SIZE + 16 {
        CutBlock(curr, size);
      }
      assert KeepsPayloads(s0, old(data), data, 0);
      blocks := blocks[curr := blocks[curr].(isFree := false)];
      StateIs(this);
    }

    // list_for_each_entry over the free list: the first block that fits.
    method FindFit(size: nat) returns (found: bool, curr: nat, ghost i: nat)
      requires ListOk()
      ensures forall b :: b in free ==> b in blocks
      ensures found == FirstFit(blocks, free, size).Some?
      ensures found ==> i < |free| && free[i] == curr && FirstFit(blocks, free, size) == Some(i)
    {
      hide *;
      StateIs(this);
      FreeAreBlocks(S(), heapStart);
      NextIs(links.next, links.prev, freeHead, free, 0);
      AfterInRing(freeHead, free, 0);
      curr, i := links.next[freeHead], 0;
      while curr != freeHead
        invariant i <= |free| && curr == After(Ring(freeHead, free), i)
        invariant curr == freeHead <==> i == |free|
        invariant forall j :: 0 <= j < i ==> free[j] in free && blocks[free[j]].size < size
        decreases |free| - i
      {
        AfterInRing(freeHead, free, i);
        assert curr == free[i] && free[i] in free;
        FirstFitIs(blocks, free, size, i);
        if blocks[curr].size >= size {
          return true, curr, i;
        }
        NextIs(links.next, links.prev, freeHead, free, i + 1);
        curr, i := links.next[curr], i + 1;
      }
      FirstFitIs(blocks, free, size, i);
      found := false;
    }

    // A request that fits needs no growth; any other needs room for one.
    ghost predicate RoomFor(size: nat)
      reads this
    {
      size == 0 || FitsNow(S(), size) || HasRoom(size)
    }

    // A request is served when it is not empty and some free block fits, or there are
    // frames for the pages of its growth and for the tables they lack.
    ghost predicate Served(size: nat)
      reads this, vm, vm.pmm, vm.pmm.bitmap
      requires vm.pmm.Valid()
    {
      && size != 0
      && (FitsNow(S(), size)
          || vm.Free() >= GrowthFrames(Lacking(vm.mem, vm.root), heapCurrent, GrowthPages(Round16(size))))
    }

    // Returns 0 for NULL. After one growth the request fits, so there is at most one
    // recursive call.
    method Kmalloc(size: nat) returns (ptr: nat)
      requires Valid() && RoomFor(size)
      modifies this, links, vm`mem, vm`owner, vm.pmm`lastFreeIndex, vm.pmm.bitmap
      ensures Valid() && Extends(old(vm.owner), vm.owner)
      ensures SameBelow(old(vm.mem), vm.mem, vm.root, old(heapCurrent))
      ensures KeepsPayloads(old(S()), old(data), data, 0)
      ensures Allocated(old(S()), S(), size, ptr)
      ensures size != 0 && ptr == 0 ==> AllUsed(vm.pmm.Used())
      ensures ptr != 0 <==> old(Served(size))
      ensures size == 0 || FitsNow(old(S()), size) ==>
        vm.mem == old(vm.mem) && vm.owner == old(vm.owner) && vm.pmm.Used() == old(vm.pmm.Used())
      decreases if FitsNow(S(), size) then 0 else 1
    {
      hide HeapOk, HeapMapped, NoLargeFrom, Vmm.Valid, Vmm.Rooted, AllUsed, SameBelow, Extends, IsList, KeepsPayloads,
        FirstFit, Round16, Take, Expand, GrowthPages, ListMemory.Holds, GrowthFrames, Missing, Vmm.Free;
      FreeAreBlocks(S(), heapStart);
      NothingMoved(S(), data, vm.mem, vm.owner, vm.root, heapCurrent);
      if size == 0 { return 0; }
      var rounded := (size + 15) / 16 * 16;
      RoundedIs(size);
      ghost var s0, data0 := S(), data;
      var found, curr;
      ghost var i;
      found, curr, i := FindFit(rounded);
      if found {
        TakeBlock(curr, rounded, i);
        return curr + HEADER_SIZE;
      }
      var ok := ExpandHeap(rounded);
      if !ok { return 0; }
      ghost var s1, data1, m1, o1 := S(), data, vm.mem, vm.owner;
      ExpandThenFits(s0, heapStart, rounded);
      GrowthFits(rounded);
      ExpandKeepsLive(s0, heapStart, GrowthPages(rounded) * 4096);
      FreeAreBlocks(s1, heapStart);
      assert FitsNow(s1, rounded);
      ptr := Kmalloc(rounded);
      ExtendsCompose(old(vm.owner), o1, vm.owner);
      SameBelowLess(m1, vm.mem, vm.root, s0.end, s1.end);
      SameBelowCompose(old(vm.mem), m1, vm.mem, vm.root, s0.end);
      KeepsPayloadsCompose(s0, s1, data0, data1, data);
      GrownAllocation(s0, heapStart, S(), size, rounded, ptr);
    }

    method Kfree(ptr: nat)
      requires Valid() && (ptr == 0 || HandedOut(S(), ptr))
      modifies this`blocks, this`free, links
      ensures Valid()
      ensures S() == Freed(old(S()), ptr)
    {
      hide HeapOk, HeapMapped, NoLargeFrom, Vmm.Valid, Vmm.Rooted, ListMemory.Holds;
      if ptr == 0 { return; }
      var block := ptr - HEADER_SIZE;
      if blocks[block].isFree { return; }
      ReleaseBlock(block);
    }

    // Marks a live block free and puts it first on the list.
    method ReleaseBlock(block: nat)
      requires ListOk() && block in blocks && !blocks[block].isFree
      modifies this`blocks, this`free, links
      ensures ListOk() && S() == Release(old(S()), block)
    {
      hide HeapOk, ListMemory.Holds, Ring;
      LiveIsNotListed(S(), heapStart, freeHead, block);
      ReleaseKeepsHeap(S(), heapStart, block);
      blocks := blocks[block := blocks[block].(isFree := true)];
      links.Add(block, freeHead, free);
      free := [block] + free;
    }

    // num * size is computed in size_t, so it wraps.
    method Kcalloc(num: word, size: word) returns (ptr: nat)
      requires Valid() && RoomFor(num * size % WORD_LIMIT)
      modifies this, links, vm`mem, vm`owner, vm.pmm`lastFreeIndex, vm.pmm.bitmap
      ensures Valid() && Extends(old(vm.owner), vm.owner)
      ensures SameBelow(old(vm.mem), vm.mem, vm.root, old(heapCurrent))
      ensures KeepsPayloads(old(S()), old(data), data, 0)
      ensures Allocated(old(S()), S(), num * size % WORD_LIMIT, ptr)
      ensures ptr != 0 ==> forall x: nat :: ptr <= x < ptr + num * size % WORD_LIMIT ==> data(x) == 0
      ensures ptr == 0 && num * size % WORD_LIMIT != 0 ==> AllUsed(vm.pmm.Used())
      ensures ptr != 0 <==> old(Served(num * size % WORD_LIMIT))
    {
      hide HeapOk, HeapMapped, NoLargeFrom, Vmm.Valid, Vmm.Rooted, AllUsed, SameBelow, Extends, IsList, KeepsPayloads,
        Allocated, FitsNow, Served;
      var total := num * size % WORD_LIMIT;
      ghost var s0, data0 := S(), data;
      ptr := Kmalloc(total);
      if ptr != 0 {
        ghost var data1 := data;
        AllocatedIsSound(s0, heapStart, S(), total, ptr);
        data := Fill(data, ptr, total, 0);
        OwnPayloadWritten(s0, heapStart, S(), total, ptr, data0, data1, data);
      }
    }

    method Krealloc(ptr: nat, newSize: nat) returns (r: nat)
      requires Valid() && RoomFor(newSize)
      requires ptr == 0 || (HandedOut(S(), ptr) && !blocks[ptr - HEADER_SIZE].isFree)
      modifies this, links, vm`mem, vm`owner, vm.pmm`lastFreeIndex, vm.pmm.bitmap
      ensures Valid() && Extends(old(vm.owner), vm.owner)
      ensures SameBelow(old(vm.mem), vm.mem, vm.root, old(heapCurrent))
      ensures Reallocated(old(S()), S(), ptr, newSize, r)
      ensures KeepsPayloads(old(S()), old(data), data, if ptr == 0 || r == 0 then 0 else ptr - HEADER_SIZE)
      ensures ptr != 0 && r != 0 ==>
        SameBytes(old(data), ptr, data, r, Min(old(blocks)[ptr - HEADER_SIZE].size, Round16(newSize)))
      ensures newSize != 0 && r == 0 ==> AllUsed(vm.pmm.Used())
      ensures r != 0 <==> (newSize != 0
        && ((ptr != 0 && Round16(newSize) <= old(blocks)[ptr - HEADER_SIZE].size) || old(Served(newSize))))
    {
      hide HeapOk, HeapMapped, NoLargeFrom, Vmm.Valid, Vmm.Rooted, AllUsed, SameBelow, Extends, IsList, KeepsPayloads,
        Allocated, FirstFit, Round16, Release, Shrink, Moved, Served;
      ghost var s0, data0 := S(), data;
      NothingMoved(s0, data0, vm.mem, vm.owner, vm.root, heapCurrent);
      PoolParts(vm);
      ServedRounded(this, newSize);
      if ptr == 0 {
        r := Kmalloc(newSize);
        return;
      }
      var block := ptr - HEADER_SIZE;
      if newSize == 0 {
        Kfree(ptr);
        return 0;
      }
      RoundedIs(newSize);
      var rounded := (newSize + 15) / 16 * 16;
      NothingMovedAt(s0, data0, block);
      if blocks[block].size == rounded {
        ShrinkIs(s0, block, rounded);
        return ptr;
      }
      if blocks[block].size > rounded {
        ShrinkInPlace(block, rounded);
        return ptr;
      }
      r := MoveBlock(block, rounded);
    }

    // memcpy between two parts of the heap, which it demands to be disjoint.
    method Memcpy(dst: nat, src: nat, n: nat)
      requires dst + n <= src || src + n <= dst
      modifies this`data
      ensures data == CopyBytes(old(data), dst, src, n)
    {
      data := CopyBytes(data, dst, src, n);
    }

    // The growing case: allocate, copy the whole old payload, free the old block.
    method MoveBlock(block: nat, rounded: nat) returns (r: nat)
      requires Valid() && RoomFor(rounded) && block in blocks && !blocks[block].isFree && blocks[block].size < rounded
      requires Round16(rounded) == rounded
      modifies this, links, vm`mem, vm`owner, vm.pmm`lastFreeIndex, vm.pmm.bitmap
      ensures Valid() && Extends(old(vm.owner), vm.owner)
      ensures SameBelow(old(vm.mem), vm.mem, vm.root, old(heapCurrent))
      ensures r == 0 ==> Allocated(old(S()), S(), rounded, 0) && KeepsPayloads(old(S()), old(data), data, 0)
      ensures r == 0 ==> AllUsed(vm.pmm.Used())
      ensures r != 0 <==> old(Served(rounded))
      ensures r != 0 ==> Moved(old(S()), S(), block, rounded, r) && KeepsPayloads(old(S()), old(data), data, block)
      ensures r != 0 ==> SameBytes(old(data), block + HEADER_SIZE, data, r, old(blocks)[block].size)
    {
      hide HeapOk, HeapMapped, NoLargeFrom, Vmm.Valid, Vmm.Rooted, AllUsed, SameBelow, Extends, IsList, KeepsPayloads,
        Allocated, FirstFit, Round16, Release, SameBytes, RoomFor, Moved, KeepsLive, KeepsBoundaries, CopyBytes, Served;
      ghost var s0, data0 := S(), data;
      LiveIsAboveZero(s0, heapStart, freeHead, block);
      r := Kmalloc(rounded);
      if r != 0 {
        ghost var s1, data1 := S(), data;
        AllocatedIsSound(s0, heapStart, s1, rounded, r);
        KeepsLiveAt(s0, s1, block);
        PayloadsDisjoint(s0, heapStart, s1, block, r);
        Memcpy(r, block + HEADER_SIZE, blocks[block].size);
        CopiedPayload(s0, heapStart, s1, rounded, block + HEADER_SIZE, r, data0, data1);
        Kfree(block + HEADER_SIZE);
        FreedIs(s1, block);
        MovedIs(s0, s1, block, rounded, r);
      }
    }

    method ShrinkInPlace(block: nat, size: nat)
      requires Valid() && block in blocks && !blocks[block].isFree && blocks[block].size > size
      requires size % 16 == 0 && size >= 16
      modifies this`blocks, this`free, this`data, links
      ensures Valid() && S() == Shrink(old(S()), block, size)
      ensures KeepsPayloads(old(S()), old(data), data, block)
      ensures SameBytes(old(data), block + HEADER_SIZE, data, block + HEADER_SIZE, size)
    {
      hide HeapOk, HeapMapped, NoLargeFrom, Vmm.Valid, Vmm.Rooted, IsList, KeepsPayloads, Ring;
      ghost var s0 := S();
      ShrinkIs(s0, block, size);
      NothingMovedAt(s0, data, block);
      if blocks[block].size - size >= HEADER_SIZE + 16 {
        ShrinkKeepsHeap(s0, heapStart, block, size);
        ShrinkIsClear(s0, heapStart, freeHead, data, block, size);
        CutBlock(block, size);
      }
    }
  }

  // The heap after freeing a pointer; NULL frees nothing.
  function Freed(s: State, ptr: nat): State {
    if HandedOut(s, ptr) then Release(s, ptr - HEADER_SIZE) else s
  }

  // A pointer kmalloc returned at some time: block boundaries are never removed.
  predicate HandedOut(s: State, ptr: nat) {
    ptr >= HEADER_SIZE && ptr - HEADER_SIZE in s.blocks
  }

  function Fill(data: Bytes, at: nat, n: nat, v: byte): Bytes {
    (x: nat) => if at <= x < at + n then v else data(x)
  }

  function CopyBytes(data: Bytes, dst: nat, src: nat, n: nat): Bytes {
    (x: nat) => if dst <= x < dst + n then data(src + (x - dst)) else data(x)
  }

  // The n bytes from a on read by d are those from b on read by d'.
  ghost predicate SameBytes(d: Bytes, a: nat, d': Bytes, b: nat, n: nat) {
    forall x: nat :: a <= x < a + n ==> d'(b + (x - a)) == d(x)
  }

  lemma ServedRounded(h: Heap, size: nat)
    requires h.vm.pmm.Valid()
    ensures size > 0 ==> h.Served(Round16(size)) == h.Served(size)
    ensures !h.Served(0)
  {
    if size > 0 {
      RoundedIs(size);
    }
    hide FirstFit, GrowthFrames, Missing;
  }

  lemma FreedIs(s: State, b: nat)
    requires b in s.blocks
    ensures Freed(s, b + HEADER_SIZE) == Release(s, b)
  {
  }

  lemma MovedIs(s: State, s1: State, b: nat, rounded: nat, r: nat)
    requires Allocated(s, s1, rounded, r) && b in s1.blocks
    ensures Moved(s, Release(s1, b), b, rounded, r)
  {
  }

  lemma LiveIsAboveZero(s: State, start: nat, head: nat, b: nat)
    requires HeapOk(s, start) && head < start && b in s.blocks
    ensures b > 0 && 0 !in s.blocks
  {
    forall c | c in s.blocks
      ensures c > 0
    {
      assert BlockOk(s.blocks, start, s.end, c);
    }
  }

  lemma KeepsLiveAt(s: State, s': State, b: nat)
    requires KeepsLive(s, s', 0) && b in s.blocks && !s.blocks[b].isFree && b != 0
    ensures b in s'.blocks && s'.blocks[b] == s.blocks[b]
    ensures HandedOut(s, b + HEADER_SIZE) && HandedOut(s', b + HEADER_SIZE)
  {
  }

  // The result of krealloc: an allocation, a release, a cut in place, or a move.
  ghost predicate Reallocated(s: State, s': State, ptr: nat, newSize: nat, r: nat) {
    var rounded := Round16(newSize);
    if ptr == 0 then Allocated(s, s', newSize, r)
    else
      && HandedOut(s, ptr)
      && var b := ptr - HEADER_SIZE;
      if newSize == 0 then r == 0 && s' == Release(s, b)
      else if rounded <= s.blocks[b].size then r == ptr && s' == Shrink(s, b, rounded)
      else if r == 0 then Allocated(s, s', rounded, 0)
      else Moved(s, s', b, rounded, r)
  }

  // A new block was allocated, then the old one released.
  ghost predicate Moved(s: State, s': State, b: nat, rounded: nat, r: nat) {
    exists s1 :: Allocated(s, s1, rounded, r) && b in s1.blocks && s' == Release(s1, b)
  }

  // ptr is the payload of a block that was not live before and now is, inside the
  // heap, big enough, and wasting less than a header and 16 bytes.
  ghost predicate FreshBlock(s: State, s': State, size: nat, ptr: nat) {
    && HandedOut(s', ptr)
    && var b := ptr - HEADER_SIZE;
    && !s'.blocks[b].isFree && (b in s.blocks ==> s.blocks[b].isFree)
    && Round16(size) <= s'.blocks[b].size < Round16(size) + HEADER_SIZE + 16
    && BlockEnd(s'.blocks, b) <= s'.end
  }

  // Every allocation yields a live block that was not live before, big enough, wasting
  // less than a header and 16 bytes, 16-byte aligned and inside the heap; the heap
  // stays well formed and all other live blocks are untouched.
  lemma AllocatedIsSound(s: State, start: nat, s': State, size: nat, ptr: nat)
    requires HeapOk(s, start) && Allocated(s, s', size, ptr) && ptr != 0
    ensures HeapOk(s', start) && FreshBlock(s, s', size, ptr) && ptr % 16 == 0
    ensures KeepsLive(s, s', 0) && KeepsBoundaries(s, s')
  {
    hide HeapOk, FirstFit, Round16, Take, GrowThenTake, KeepsLive, KeepsBoundaries, BlockEnd;
    RoundedIs(size);
    var rounded := Round16(size);
    if FirstFit(s.blocks, s.free, rounded).Some? {
      TakenIsSound(s, start, s', FirstFit(s.blocks, s.free, rounded).value, rounded);
    } else {
      GrownIsSound(s, start, s', rounded);
    }
  }

  lemma GrownIsSound(s: State, start: nat, s': State, size: nat)
    requires HeapOk(s, start) && size % 16 == 0 && size >= 16
    requires forall b :: b in s.free ==> b in s.blocks
    requires FirstFit(s.blocks, s.free, size).None? && s' == GrowThenTake(s, size)
    ensures HeapOk(s', start)
    ensures var b := s.end;
      && b in s'.blocks && !s'.blocks[b].isFree && b !in s.blocks && (b + HEADER_SIZE) % 16 == 0
      && size <= s'.blocks[b].size < size + HEADER_SIZE + 16 && BlockEnd(s'.blocks, b) <= s'.end
    ensures KeepsLive(s, s', 0) && KeepsBoundaries(s, s')
  {
    hide HeapOk, FirstFit, Take, Expand, GrowthPages, KeepsLive, KeepsBoundaries, BlockEnd;
    var bytes := GrowthPages(size) * 4096;
    GrowthFits(size);
    var grown := Expand(s, bytes);
    ExpandKeepsHeap(s, start, bytes);
    ExpandThenFits(s, start, size);
    ExpandKeepsLive(s, start, bytes);
    GrownFree(s, start, bytes);
    TakenIsSound(grown, start, s', |s.free|, size);
    LiveCompose(s, grown, s');
  }

  lemma GrownFree(s: State, start: nat, bytes: nat)
    requires HeapOk(s, start) && bytes >= HEADER_SIZE
    ensures Expand(s, bytes).free == s.free + [s.end] && s.end !in s.blocks
    ensures forall b :: b in Expand(s, bytes).free ==> b in Expand(s, bytes).blocks
  {
    EndIsNew(s.blocks, start, s.end);
  }

  lemma LiveCompose(s0: State, s1: State, s2: State)
    requires KeepsLive(s0, s1, 0) && KeepsBoundaries(s0, s1) && KeepsLive(s1, s2, 0) && KeepsBoundaries(s1, s2)
    ensures KeepsLive(s0, s2, 0) && KeepsBoundaries(s0, s2)
  {
  }

  lemma TakenIsSound(s: State, start: nat, s': State, i: nat, size: nat)
    requires HeapOk(s, start) && size % 16 == 0 && size >= 16 && i < |s.free|
    requires forall b :: b in s.free ==> b in s.blocks
    requires s.free[i] in s.free && s.blocks[s.free[i]].size >= size && s' == Take(s, i, size)
    ensures HeapOk(s', start)
    ensures var b := s.free[i];
      && b in s'.blocks && !s'.blocks[b].isFree && s.blocks[b].isFree && (b + HEADER_SIZE) % 16 == 0
      && size <= s'.blocks[b].size < size + HEADER_SIZE + 16 && BlockEnd(s'.blocks, b) <= s'.end
    ensures KeepsLive(s, s', 0) && KeepsBoundaries(s, s')
  {
    hide *;
    TakeKeepsHeap(s, start, i, size);
    TakeIsExact(s, start, i, size);
    KeepsAllLive(s, s', s.free[i]);
    Multiple16(s.free[i], 0);
    BlockInside(s', start, s.free[i]);
  }

  lemma KeepsAllLive(s: State, s': State, b: nat)
    requires KeepsLive(s, s', b) && b in s.blocks && s.blocks[b].isFree
    ensures KeepsLive(s, s', 0)
  {
  }

  lemma BlockInside(s: State, start: nat, b: nat)
    requires HeapOk(s, start) && b in s.blocks
    ensures BlockEnd(s.blocks, b) <= s.end && start <= b
  {
    assert BlockOk(s.blocks, start, s.end, b);
  }

  lemma LiveIsNotListed(s: State, start: nat, head: nat, b: nat)
    requires HeapOk(s, start) && head < start && b in s.blocks && !s.blocks[b].isFree
    ensures b !in Ring(head, s.free)
  {
    assert BlockOk(s.blocks, start, s.end, b);
  }

  lemma NothingMovedAt(s: State, data: Bytes, b: nat)
    ensures KeepsPayloads(s, data, data, b)
  {
  }

  lemma ShrinkIs(s: State, b: nat, size: nat)
    requires b in s.blocks && s.blocks[b].size >= size
    ensures Splits(s.blocks, b, size) == (s.blocks[b].size - size >= HEADER_SIZE + 16)
    ensures s.blocks[b].size == size ==> Shrink(s, b, size) == s
  {
  }

  lemma ShrinkIsClear(s: State, start: nat, head: nat, data: Bytes, b: nat, size: nat)
    requires HeapOk(s, start) && head < start && b in s.blocks && !s.blocks[b].isFree && Splits(s.blocks, b, size)
    ensures var r := b + HEADER_SIZE + size;
      r !in Ring(head, s.free) && KeepsPayloads(s, data, Clobber(data, r), b)
  {
    var r := b + HEADER_SIZE + size;
    RemainderIsNew(s.blocks, start, s.end, b, size);
    assert BlockOk(s.blocks, start, s.end, b);
    forall c, x: nat | c in s.blocks && !s.blocks[c].isFree && c != b && c + HEADER_SIZE <= x < BlockEnd(s.blocks, c)
      ensures Clobber(data, r)(x) == data(x)
    {
      PayloadsAreApart(s.blocks, start, s.end, c, b, x);
    }
  }

  lemma HeapIsTiled(s: State, start: nat)
    requires HeapOk(s, start)
    ensures Tiled(s.blocks, start, s.end)
  {
  }

  // Writing only inside the new block leaves every older live payload alone.
  lemma OwnPayloadWritten(s: State, start: nat, s': State, size: nat, ptr: nat, d0: Bytes, d1: Bytes, d2: Bytes)
    requires HeapOk(s', start) && HandedOut(s', ptr) && KeepsLive(s, s', 0)
    requires ptr - HEADER_SIZE in s.blocks ==> s.blocks[ptr - HEADER_SIZE].isFree
    requires KeepsPayloads(s, d0, d1, 0)
    requires forall x: nat :: !(ptr <= x < BlockEnd(s'.blocks, ptr - HEADER_SIZE)) ==> d2(x) == d1(x)
    ensures KeepsPayloads(s, d0, d2, 0)
  {
    hide HeapOk, KeepsLive;
    forall c, x: nat | c in s.blocks && !s.blocks[c].isFree && c != 0 && c + HEADER_SIZE <= x < BlockEnd(s.blocks, c)
      ensures d2(x) == d0(x)
    {
      OtherPayloadAt(s, start, s', ptr - HEADER_SIZE, c, x);
    }
  }

  lemma OtherPayloadAt(s: State, start: nat, s': State, b: nat, c: nat, x: nat)
    requires HeapOk(s', start) && b in s'.blocks && KeepsLive(s, s', 0)
    requires b in s.blocks ==> s.blocks[b].isFree
    requires c in s.blocks && !s.blocks[c].isFree && c != 0 && c + HEADER_SIZE <= x < BlockEnd(s.blocks, c)
    ensures !(b + HEADER_SIZE <= x < BlockEnd(s'.blocks, b))
  {
    hide *;
    HeapIsTiled(s', start);
    LiveIs(s, s', c);
    PayloadsAreApart(s'.blocks, start, s'.end, c, b, x);
  }

  lemma LiveIs(s: State, s': State, c: nat)
    requires KeepsLive(s, s', 0) && c in s.blocks && !s.blocks[c].isFree && c != 0
    ensures c in s'.blocks && s'.blocks[c] == s.blocks[c] && BlockEnd(s'.blocks, c) == BlockEnd(s.blocks, c)
  {
  }

  // A fresh block's payload, long enough for a live block's, does not meet it.
  lemma PayloadsDisjoint(s: State, start: nat, s1: State, b: nat, r: nat)
    requires HeapOk(s1, start) && HandedOut(s1, r) && KeepsLive(s, s1, 0)
    requires b in s.blocks && !s.blocks[b].isFree && b != 0 && b in s1.blocks && s1.blocks[b] == s.blocks[b]
    requires r - HEADER_SIZE in s.blocks ==> s.blocks[r - HEADER_SIZE].isFree
    requires s1.blocks[r - HEADER_SIZE].size >= s.blocks[b].size
    ensures var p, n := b + HEADER_SIZE, s.blocks[b].size; r + n <= p || p + n <= r
  {
    hide HeapOk, Tiled, KeepsLive;
    HeapIsTiled(s1, start);
    Beside(s1.blocks, start, s1.end, b, r - HEADER_SIZE);
  }

  lemma CopiedPayload(s: State, start: nat, s1: State, rounded: nat, ptr: nat, r: nat, d0: Bytes, d1: Bytes)
    requires HeapOk(s1, start) && HandedOut(s, ptr) && HandedOut(s1, r) && KeepsLive(s, s1, 0)
    requires !s.blocks[ptr - HEADER_SIZE].isFree && ptr > HEADER_SIZE
    requires r - HEADER_SIZE in s.blocks ==> s.blocks[r - HEADER_SIZE].isFree
    requires s1.blocks[r - HEADER_SIZE].size >= s.blocks[ptr - HEADER_SIZE].size
    requires KeepsPayloads(s, d0, d1, 0) && 0 !in s.blocks
    ensures var n := s.blocks[ptr - HEADER_SIZE].size; var d2 := CopyBytes(d1, r, ptr, n);
      KeepsPayloads(s, d0, d2, ptr - HEADER_SIZE) && SameBytes(d0, ptr, d2, r, n)
  {
    hide HeapOk, KeepsLive, KeepsPayloads, SameBytes;
    var n := s.blocks[ptr - HEADER_SIZE].size;
    var d2 := CopyBytes(d1, r, ptr, n);
    OwnPayloadWritten(s, start, s1, rounded, r, d0, d1, d2);
    OwnBytesKept(s, ptr - HEADER_SIZE, d0, d1);
    KeepsPayloadsBut(s, d0, d2, ptr - HEADER_SIZE);
    CopyIsSame(d0, d1, ptr, r, n);
  }

  lemma CopyIsSame(d0: Bytes, d1: Bytes, a: nat, b: nat, n: nat)
    requires forall x: nat :: a <= x < a + n ==> d1(x) == d0(x)
    ensures SameBytes(d0, a, CopyBytes(d1, b, a, n), b, n)
  {
  }

  lemma OwnBytesKept(s: State, b: nat, d0: Bytes, d1: Bytes)
    requires b in s.blocks && !s.blocks[b].isFree && b > 0 && KeepsPayloads(s, d0, d1, 0)
    ensures forall x: nat :: b + HEADER_SIZE <= x < BlockEnd(s.blocks, b) ==> d1(x) == d0(x)
  {
  }

  lemma KeepsPayloadsBut(s: State, d: Bytes, d': Bytes, b: nat)
    requires KeepsPayloads(s, d, d', 0) && 0 !in s.blocks
    ensures KeepsPayloads(s, d, d', b)
  {
  }

  lemma GrownAllocation(s: State, start: nat, s': State, size: nat, rounded: nat, ptr: nat)
    requires HeapOk(s, start) && size > 0 && rounded == Round16(size) && Round16(rounded) == rounded && rounded >= 16
    requires rounded % 16 == 0
    requires forall b :: b in s.free ==> b in s.blocks
    requires FirstFit(s.blocks, s.free, rounded).None?
    requires Allocated(Expand(s, GrowthPages(rounded) * 4096), s', rounded, ptr)
    ensures Allocated(s, s', size, ptr) && ptr != 0
  {
    hide HeapOk, Round16, GrowthPages;
    ExpandThenFits(s, start, rounded);
  }

  lemma SameBelowLess(mem: Memory, mem': Memory, root: nat, limit: nat, more: nat)
    requires SameBelow(mem, mem', root, more) && limit <= more
    ensures SameBelow(mem, mem', root, limit)
  {
    hide Translate, Canonical;
  }

  lemma ExpandKeepsLive(s: State, start: nat, bytes: nat)
    requires HeapOk(s, start) && bytes >= HEADER_SIZE
    ensures KeepsLive(s, Expand(s, bytes), 0) && KeepsBoundaries(s, Expand(s, bytes)) && s.end <= Expand(s, bytes).end
  {
    EndIsNew(s.blocks, start, s.end);
  }

  lemma KeepsPayloadsCompose(s0: State, s1: State, d0: Bytes, d1: Bytes, d2: Bytes)
    requires KeepsLive(s0, s1, 0) && KeepsPayloads(s0, d0, d1, 0) && KeepsPayloads(s1, d1, d2, 0)
    ensures KeepsPayloads(s0, d0, d2, 0)
  {
    forall c, x: nat | c in s0.blocks && !s0.blocks[c].isFree && c != 0 && c + HEADER_SIZE <= x < BlockEnd(s0.blocks, c)
      ensures d2(x) == d0(x)
    {
      assert c in s1.blocks && s1.blocks[c] == s0.blocks[c];
    }
  }

  lemma RoundedIs(size: nat)
    requires size > 0
    ensures var r := (size + 15) / 16 * 16; Round16(size) == r && Round16(r) == r && r % 16 == 0 && r >= 16
  {
  }

  // The request fits some free block.
  ghost predicate FitsNow(s: State, size: nat) {
    (forall b :: b in s.free ==> b in s.blocks) && FirstFit(s.blocks, s.free, Round16(size)).Some?
  }

  lemma StateIs(h: Heap)
    ensures h.S() == State(h.blocks, h.free, h.heapCurrent)
    ensures h.ListOk() <==> h.links.Holds(h.freeHead, h.free) && HeapOk(h.S(), h.heapStart) && h.freeHead < h.heapStart
    ensures h.links.Holds(h.freeHead, h.free) <==> IsList(h.links.next, h.links.prev, h.freeHead, h.free)
  {
  }

  lemma FreeBlockIs(s: State, start: nat, i: nat)
    requires HeapOk(s, start) && i < |s.free|
    ensures s.free[i] in s.blocks && s.blocks[s.free[i]].isFree
  {
    assert s.free[i] in s.free;
  }

  lemma TakeIs(s: State, i: nat, size: nat)
    requires i < |s.free| && s.free[i] in s.blocks
    ensures var b := s.free[i]; Splits(s.blocks, b, size) == (s.blocks[b].size >= size + HEADER_SIZE + 16)
    ensures Take(s, i, size).end == s.end
    ensures var b := s.free[i]; Splits(s.blocks, b, size) ==>
      var r := b + HEADER_SIZE + size;
      var cut := s.blocks[r := Block(s.blocks[b].size - size - HEADER_SIZE, true)][b := s.blocks[b].(size := size)];
      Take(s, i, size).blocks == cut[b := cut[b].(isFree := false)] && Take(s, i, size).free == [r] + Without(s.free, i)
    ensures var b := s.free[i]; !Splits(s.blocks, b, size) ==>
      Take(s, i, size).blocks == s.blocks[b := s.blocks[b].(isFree := false)] && Take(s, i, size).free == Without(s.free, i)
  {
    var b := s.free[i];
    if Splits(s.blocks, b, size) {
      var more := s.blocks[b + HEADER_SIZE + size := Block(s.blocks[b].size - size - HEADER_SIZE, true)];
      OverwriteTwice(more, b, s.blocks[b].(size := size), Block(size, false));
    }
  }

  function GrowThenTake(s: State, size: nat): State {
    var grown := Expand(s, GrowthPages(size) * 4096);
    assert grown.free[|s.free|] == s.end;
    Take(grown, |s.free|, size)
  }

  // The result of a request: nothing for size 0, otherwise the first fitting block of
  // the list, or after one growth the new block.
  ghost predicate Allocated(s: State, s': State, size: nat, ptr: nat) {
    var rounded := Round16(size);
    && (forall b :: b in s.free ==> b in s.blocks)
    && if size == 0 then ptr == 0 && s' == s
       else match FirstFit(s.blocks, s.free, rounded)
         case Some(i) => ptr == s.free[i] + HEADER_SIZE && s' == Take(s, i, rounded)
         case None => if ptr == 0 then s' == s else ptr == s.end + HEADER_SIZE && s' == GrowThenTake(s, rounded)
  }

  lemma FreeAreBlocks(s: State, start: nat)
    requires HeapOk(s, start)
    ensures forall b :: b in s.free ==> b in s.blocks
  {
  }

  lemma NothingMoved(s: State, data: Bytes, mem: Memory, owner: map<nat, Owner>, root: nat, limit: nat)
    ensures KeepsPayloads(s, data, data, 0) && SameBelow(mem, mem, root, limit) && Extends(owner, owner)
  {
  }

  // A header written for the remainder of a free block overwrites no live payload.
  lemma TakeIsClear(s: State, start: nat, head: nat, data: Bytes, i: nat, size: nat)
    requires HeapOk(s, start) && head < start && i < |s.free| && s.free[i] in s.blocks
    requires s.blocks[s.free[i]].size >= size
    ensures KeepsPayloads(s, data, data, 0)
    ensures Splits(s.blocks, s.free[i], size) ==>
      var r := s.free[i] + HEADER_SIZE + size;
      r !in Ring(head, Without(s.free, i)) && KeepsPayloads(s, data, Clobber(data, r), 0)
  {
    hide *;
    var b := s.free[i];
    NothingMovedAt(s, data, 0);
    if Splits(s.blocks, b, size) {
      var r := b + HEADER_SIZE + size;
      FreeBlockIs(s, start, i);
      RemainderFits(s, start, b, size);
      RemainderIsUnlisted(s, start, head, i, r);
      FreeWriteKeeps(s, start, data, b, r);
    }
  }

  lemma RemainderFits(s: State, start: nat, b: nat, size: nat)
    requires HeapOk(s, start) && b in s.blocks && Splits(s.blocks, b, size)
    ensures b + HEADER_SIZE + size !in s.blocks && start <= b && b < b + HEADER_SIZE + size
    ensures b + HEADER_SIZE + size + HEADER_SIZE <= BlockEnd(s.blocks, b)
  {
    HeapIsTiled(s, start);
    RemainderIsNew(s.blocks, start, s.end, b, size);
    BlockIsOk(s.blocks, start, s.end, b);
  }

  // An address above the list head that is no block is not on the list.
  lemma RemainderIsUnlisted(s: State, start: nat, head: nat, i: nat, r: nat)
    requires HeapOk(s, start) && head < start < r && i < |s.free| && r !in s.blocks
    ensures r !in Ring(head, Without(s.free, i))
  {
    FreeAreBlocks(s, start);
    hide HeapOk;
  }

  // Writing a header inside a free block's payload overwrites no live payload.
  lemma FreeWriteKeeps(s: State, start: nat, data: Bytes, b: nat, r: nat)
    requires HeapOk(s, start) && b in s.blocks && s.blocks[b].isFree
    requires b <= r && r + HEADER_SIZE <= BlockEnd(s.blocks, b)
    ensures KeepsPayloads(s, data, Clobber(data, r), 0)
  {
    HeapIsTiled(s, start);
    hide HeapOk, Tiled;
    forall c, x: nat | c in s.blocks && !s.blocks[c].isFree && c + HEADER_SIZE <= x < BlockEnd(s.blocks, c)
      ensures Clobber(data, r)(x) == data(x)
    {
      PayloadsAreApart(s.blocks, start, s.end, c, b, x);
    }
  }

  lemma GrowthAligned(base: nat, pages: nat)
    requires base % 4096 == 0
    ensures (base + pages * 4096) % 4096 == 0
  {
  }

  lemma NoLargeFurther(mem: Memory, root: nat, from: nat, further: nat)
    requires NoLargeFrom(mem, root, from) && from <= further
    ensures NoLargeFrom(mem, root, further)
  {
  }

  // The end of the heap is no block, not on the list, and its header overwrites no
  // live payload.
  lemma ExpandIsClear(s: State, start: nat, head: nat, data: Bytes, at: nat)
    requires HeapOk(s, start) && head < start && at == s.end
    ensures at !in Ring(head, s.free) && KeepsPayloads(s, data, Clobber(data, at), 0)
  {
    EndIsNew(s.blocks, start, s.end);
    forall c | c in s.blocks
      ensures BlockEnd(s.blocks, c) <= s.end
    {
      assert BlockOk(s.blocks, start, s.end, c);
    }
  }

  lemma PageAddress(base: nat, i: nat, pages: nat)
    requires base % 4096 == 0 && i < pages
    ensures (base + i * 4096) % 4096 == 0 && base + i * 4096 + 4096 <= base + pages * 4096
  {
  }

  lemma HeapMappedLess(mem: Memory, root: nat, owner: map<nat, Owner>, start: nat, end: nat, more: nat)
    requires HeapMapped(mem, root, owner, start, more) && end <= more
    ensures HeapMapped(mem, root, owner, start, end)
  {
    hide PageOwned;
  }

  // The page-aligned start of the heap, before anything is mapped there.
  lemma HeapBegins(mem: Memory, root: nat, owner: map<nat, Owner>, heapSymbol: nat)
    requires heapSymbol + 4096 < WORD_LIMIT && NoLargeFrom(mem, root, heapSymbol)
    ensures var start := (heapSymbol + 4095) / 4096 * 4096;
      && heapSymbol <= start < WORD_LIMIT && start % 4096 == 0
      && HeapMapped(mem, root, owner, start, start) && NoLargeFrom(mem, root, start)
      && HeapOk(State(map[], [], start), start)
  {
    var start := (heapSymbol + 4095) / 4096 * 4096;
    HeapStartsAligned(start);
    NoLargeFurther(mem, root, heapSymbol, start);
    hide HeapOk, NoLargeFrom, Translate;
  }

  lemma HeapStartsAligned(start: nat)
    requires start % 4096 == 0
    ensures HeapOk(State(map[], [], start), start)
  {
    assert start == 16 * (start / 4096 * 256);
  }

  // kcalloc hands out num * size bytes exactly when that product does not wrap.
  lemma CallocHoldsRequest(s: State, start: nat, s': State, num: word, size: word, ptr: nat)
    requires HeapOk(s, start) && Allocated(s, s', num * size % WORD_LIMIT, ptr) && ptr != 0 && s'.end < WORD_LIMIT
    ensures HandedOut(s', ptr)
    ensures s'.blocks[ptr - HEADER_SIZE].size >= num * size <==> num * size < WORD_LIMIT
  {
    hide HeapOk, Allocated;
    AllocatedIsSound(s, start, s', num * size % WORD_LIMIT, ptr);
  }

  // 2^60 + 1 elements of 16 bytes are asked for as 16 bytes.
  lemma CallocCanWrap(s: State, start: nat, s': State, ptr: nat)
    ensures var num: word, size: word := 0x1000_0000_0000_0001, 16;
      && num * size % WORD_LIMIT == 16
      && (HeapOk(s, start) && Allocated(s, s', 16, ptr) && ptr != 0 && s'.end < WORD_LIMIT ==>
           HandedOut(s', ptr) && s'.blocks[ptr - HEADER_SIZE].size < num * size)
  {
    if HeapOk(s, start) && Allocated(s, s', 16, ptr) && ptr != 0 && s'.end < WORD_LIMIT {
      hide HeapOk, Allocated;
      CallocHoldsRequest(s, start, s', 0x1000_0000_0000_0001, 16, ptr);
    }
  }

  // krealloc of a live block: to nothing it frees it; to no more than it holds it stays
  // where it is, less than 64 bytes too large; to more it goes elsewhere and is freed,
  // or stays as it was.
  lemma ReallocatedMeans(s: State, start: nat, s': State, ptr: nat, newSize: nat, r: nat)
    requires HeapOk(s, start) && start > 0 && HandedOut(s, ptr) && !s.blocks[ptr - HEADER_SIZE].isFree
    requires Reallocated(s, s', ptr, newSize, r)
    ensures newSize == 0 ==> r == 0 && s' == Release(s, ptr - HEADER_SIZE)
    ensures 0 < newSize <= s.blocks[ptr - HEADER_SIZE].size ==>
      r == ptr && HandedOut(s', ptr) && newSize <= s'.blocks[ptr - HEADER_SIZE].size < newSize + 64
    ensures newSize > s.blocks[ptr - HEADER_SIZE].size && r == 0 ==> s' == s
    ensures newSize > s.blocks[ptr - HEADER_SIZE].size && r != 0 ==>
      && r != ptr && HandedOut(s', r) && s'.blocks[r - HEADER_SIZE].size >= newSize && !s'.blocks[r - HEADER_SIZE].isFree
      && HandedOut(s', ptr) && s'.blocks[ptr - HEADER_SIZE].isFree && s'.free != [] && s'.free[0] == ptr - HEADER_SIZE
  {
    hide HeapOk, Allocated, Shrink, Moved;
    var b := ptr - HEADER_SIZE;
    SizeIsRounded(s, start, b, newSize);
    if newSize == 0 {
    } else if newSize <= s.blocks[b].size {
      ShrinkMeans(s, start, b, Round16(newSize));
    } else if r == 0 {
      NothingAllocated(s, s', Round16(newSize));
    } else {
      MovedMeans(s, start, s', b, Round16(newSize), r);
    }
  }

  lemma SizeIsRounded(s: State, start: nat, b: nat, n: nat)
    requires HeapOk(s, start) && b in s.blocks
    ensures n <= s.blocks[b].size <==> Round16(n) <= s.blocks[b].size
    ensures n > 0 ==> Round16(n) >= 16 && Round16(Round16(n)) == Round16(n)
  {
    assert AlignedBlock(s.blocks, b);
    hide HeapOk;
    MultiplesOf16(s.blocks[b].size, n);
    if n > 0 {
      RoundedIs(n);
    }
  }

  lemma MultiplesOf16(size: nat, n: nat)
    requires size % 16 == 0
    ensures n <= size <==> (n + 15) / 16 * 16 <= size
  {
  }

  lemma NothingAllocated(s: State, s': State, size: nat)
    requires Allocated(s, s', size, 0)
    ensures s' == s
  {
    hide FirstFit, Take, GrowThenTake;
  }

  lemma MovedMeans(s: State, start: nat, s': State, b: nat, rounded: nat, r: nat)
    requires HeapOk(s, start) && start > 0 && b in s.blocks && !s.blocks[b].isFree && Moved(s, s', b, rounded, r) && r != 0
    requires Round16(rounded) == rounded
    ensures HandedOut(s', r) && s'.blocks[r - HEADER_SIZE].size >= rounded && !s'.blocks[r - HEADER_SIZE].isFree
    ensures r - HEADER_SIZE != b && b in s'.blocks && s'.blocks[b].isFree && s'.free != [] && s'.free[0] == b
  {
    hide HeapOk, Allocated;
    var s1 :| Allocated(s, s1, rounded, r) && b in s1.blocks && s' == Release(s1, b);
    AllocatedIsSound(s, start, s1, rounded, r);
    StaysLive(s, start, s1, b);
  }

  lemma StaysLive(s: State, start: nat, s1: State, b: nat)
    requires HeapOk(s, start) && start > 0 && KeepsLive(s, s1, 0) && b in s.blocks && !s.blocks[b].isFree
    ensures b in s1.blocks && !s1.blocks[b].isFree
  {
    HeapIsTiled(s, start);
    BlockIsOk(s.blocks, start, s.end, b);
    hide HeapOk, Tiled;
  }
}
