// The virtual memory manager of src/kernel/memory/vmm.c over one address space,
// together with the page allocator it takes its tables from.
module Vmm {
  import opened Wrappers
  import opened Words
  import opened Pmm
  import opened Paging
  import opened MissingTables

  const FRAME_LIMIT: nat := 0x100_0000_0000
  const LARGE_PAGE_SIZE: nat := 0x20_0000

  // Flags leave the frame bits 51 to 12 alone.
  predicate FlagsOk(flags: nat) {
    flags < WORD_LIMIT && FrameOf(flags) == 0
  }

  // low | VMM_FLAG_PRESENT, and | VMM_FLAG_PS for a 2 MiB leaf.
  function LeafFlags(low: nat, large: bool): nat {
    if large then SetBit(SetBit(low, 0), 7) else SetBit(low, 0)
  }

  // (phys & PAGE_FRAME_MASK) | flags | VMM_FLAG_PRESENT, with VMM_FLAG_PS for a 2 MiB
  // leaf: the physical frame's bits between the high and the low flag bits.
  function LeafEntry(phys: nat, flags: nat, large: bool): (e: word)
    requires phys < PHYS_LIMIT && FlagsOk(flags)
  {
    LeafFlagsFit(flags % 4096, large);
    flags / PHYS_LIMIT * PHYS_LIMIT + phys / 4096 * 4096 + LeafFlags(flags % 4096, large)
  }

  lemma LeafEntryBits(phys: nat, flags: nat, large: bool)
    requires phys < PHYS_LIMIT && FlagsOk(flags)
    ensures var e := LeafEntry(phys, flags, large);
      && Present(e) && FrameOf(e) == phys / 4096
      && Writable(e) == Writable(flags) && User(e) == User(flags) && NoExecute(e) == NoExecute(flags)
      && (large ==> Large(e))
  {
    LeafEntryBit(phys, flags, large, 0);
    LeafEntryBit(phys, flags, large, 1);
    LeafEntryBit(phys, flags, large, 2);
    LeafEntryBit(phys, flags, large, 7);
    LeafEntryBit(phys, flags, large, 63);
    LeafEntryFrame(phys, flags, large);
  }

  // Outside the frame, a leaf entry has the bits of its flags and of P and PS.
  lemma LeafEntryBit(phys: nat, flags: nat, large: bool, i: nat)
    requires phys < PHYS_LIMIT && FlagsOk(flags) && (i < 12 || i >= 52)
    ensures Bit(LeafEntry(phys, flags, large), i) == (Bit(flags, i) || i == 0 || (large && i == 7))
  {
    hide Bit, SetBit;
    var low := flags % 4096;
    LeafFlagsFit(low, large);
    ComposedBit(flags / PHYS_LIMIT, phys / 4096, LeafFlags(low, large), i);
    SetBitAt(low, 0, i);
    SetBitAt(SetBit(low, 0), 7, i);
    FlagBit(flags, i);
  }

  lemma FlagBit(flags: nat, i: nat)
    requires FlagsOk(flags) && (i < 12 || i >= 52)
    ensures Bit(flags, i) == if i < 12 then Bit(flags % 4096, i) else Bit(flags / PHYS_LIMIT, i - 52)
  {
    var low, high := flags % 4096, flags / PHYS_LIMIT;
    assert flags == high * PHYS_LIMIT + 0 * 4096 + low;
    ComposedBit(high, 0, low, i);
  }

  lemma LeafFlagsFit(low: nat, large: bool)
    requires low < 4096
    ensures LeafFlags(low, large) < 4096
  {
    WordLimitIsPow2();
    BitUpdatesFit(low, 0, 12);
    BitUpdatesFit(SetBit(low, 0), 7, 12);
  }

  lemma ComposedBit(high: nat, frame: nat, g: nat, i: nat)
    requires frame < FRAME_LIMIT && g < 4096 && (i < 12 || i >= 52)
    ensures Bit(high * PHYS_LIMIT + frame * 4096 + g, i) == if i < 12 then Bit(g, i) else Bit(high, i - 52)
  {
    WordLimitIsPow2();
    SplitBit(frame * 4096 + g, high, 52, i);
    SplitBit(g, frame, 12, i);
  }

  lemma LeafEntryFrame(phys: nat, flags: nat, large: bool)
    requires phys < PHYS_LIMIT && FlagsOk(flags)
    ensures FrameOf(LeafEntry(phys, flags, large)) == phys / 4096
  {
    var high, frame := flags / PHYS_LIMIT, phys / 4096;
    var g := LeafFlags(flags % 4096, large);
    LeafFlagsFit(flags % 4096, large);
    var e := high * PHYS_LIMIT + frame * 4096 + g;
    assert e / 4096 == high * FRAME_LIMIT + frame;
  }

  // Owned frames are exactly the used pages.
  ghost predicate OwnsUsed(owner: map<nat, Owner>, used: seq<bool>) {
    forall p :: p in owner <==> 0 <= p < |used| && used[p]
  }

  // owner' keeps every old frame in its role.
  ghost predicate Extends(owner: map<nat, Owner>, owner': map<nat, Owner>) {
    forall f :: f in owner ==> f in owner' && owner'[f] == owner[f]
  }

  // Only page tables were added.
  ghost predicate AddsTables(owner: map<nat, Owner>, owner': map<nat, Owner>) {
    Extends(owner, owner') && forall f :: f in owner' && f !in owner ==> owner'[f].TableAt?
  }

  ghost predicate AllUsed(u: seq<bool>) {
    forall p :: 0 <= p < |u| ==> u[p]
  }

  lemma ChosenPageIsFresh(u: seq<bool>, hint: nat, owner: map<nat, Owner>, o: Owner)
    requires OwnsUsed(owner, u) && 0 in owner
    ensures match ChoosePage(u, hint)
      case None => AllUsed(u)
      case Some(p) => 0 < p < |u| && p !in owner && OwnsUsed(owner[p := o], u[p := true])
  {
  }

  // The choice takes exactly one free page, and there is one unless none is free.
  lemma ChoiceCounts(u: seq<bool>, hint: nat)
    ensures ChoosePage(u, hint).None? <==> FreeCount(u) == 0
    ensures ChoosePage(u, hint).Some? ==>
      var p := ChoosePage(u, hint).value; p < |u| && FreeCount(u[p := true]) + 1 == FreeCount(u)
  {
    ChoosePageExact(u, hint);
    NoneFree(u);
    hide FreeCount;
    if ChoosePage(u, hint).Some? {
      TakingOne(u, ChoosePage(u, hint).value);
    }
  }

  lemma NoFreePage(u: seq<bool>)
    ensures FreeCount(u) == 0 <==> AllUsed(u)
  {
    NoneFree(u);
  }

  class Vmm {
    const pmm: Pmm
    var mem: Memory
    var root: nat
    ghost var owner: map<nat, Owner>

    constructor (pmm: Pmm, mem: Memory, ghost owner: map<nat, Owner>)
      ensures this.pmm == pmm && this.mem == mem && this.owner == owner
    {
      this.pmm := pmm;
      this.mem := mem;
      this.root := 0;
      this.owner := owner;
    }

    // The single-owner invariant: the used pages are exactly the owned frames, each
    // with one role; the tables among them are well formed; page 0 is never handed out.
    ghost predicate Valid()
      reads this, pmm, pmm.bitmap
    {
      PoolOwned(owner) && WellFormed(mem, owner)
    }

    // The address space has a top-level table.
    ghost predicate Rooted()
      reads this
    {
      root in owner && owner[root] == TableAt(4, 0)
    }

    // The allocator's side of Valid, for a given ownership.
    ghost predicate PoolOwned(o: map<nat, Owner>)
      reads this, pmm, pmm.bitmap
    {
      && pmm.Valid() && pmm.initialized && pmm.totalPages <= FRAME_LIMIT
      && OwnsUsed(o, pmm.Used())
      && 0 in o
      && (forall p :: 0 <= p < pmm.totalPages ==> p in mem)
    }

    // The number of free pages.
    ghost function Free(): nat
      reads pmm, pmm.bitmap
      requires pmm.Valid()
    {
      FreeCount(pmm.Used())
    }

    // The tables the walk of va lacks.
    ghost function Lacks(va: nat): nat
      reads this
    {
      Missing(mem, root, va)
    }

    // Takes one page from the allocator and gives it the role o.
    method TakePage(ghost o: Owner) returns (addr: nat)
      requires PoolOwned(owner)
      modifies pmm`lastFreeIndex, pmm.bitmap
      ensures pmm.Valid() && (addr == 0 <==> old(Free()) == 0)
      ensures addr == 0 ==> pmm.Used() == old(pmm.Used())
      ensures addr != 0 ==> Free() + 1 == old(Free())
      ensures addr == 0 ==> PoolOwned(owner) && AllUsed(pmm.Used())
      ensures addr != 0 ==> PoolOwned(owner[addr / 4096 := o])
      ensures addr != 0 ==> addr % 4096 == 0 && addr / 4096 < FRAME_LIMIT && addr / 4096 !in owner
    {
      hide FreeCount, ChoosePage, FirstFree, UsedMap, PaddingSet, BitmapBytes, PageBit, WellFormed;
      ChosenPageIsFresh(pmm.Used(), pmm.lastFreeIndex, owner, o);
      ChoiceCounts(pmm.Used(), pmm.lastFreeIndex);
      addr := pmm.AllocPage();
    }

    // Takes a page for a use other than a page table.
    method TakeFrame(ghost o: Owner) returns (addr: nat)
      requires Valid() && !o.TableAt?
      modifies this`owner, pmm`lastFreeIndex, pmm.bitmap
      ensures Valid() && (addr == 0 <==> old(Free()) == 0) && (addr != 0 ==> Free() + 1 == old(Free()))
      ensures addr == 0 ==> owner == old(owner) && AllUsed(pmm.Used())
      ensures addr != 0 ==> addr % 4096 == 0 && addr < PHYS_LIMIT
      ensures addr != 0 ==> addr / 4096 !in old(owner) && owner == old(owner)[addr / 4096 := o]
    {
      addr := TakePage(o);
      if addr != 0 {
        SameTables(mem, owner, owner[addr / 4096 := o]);
        owner := owner[addr / 4096 := o];
      }
    }

    // Takes a run of pages for a use other than page tables.
    method TakeFrames(count: nat, ghost o: Owner) returns (addr: nat)
      requires Valid() && !o.TableAt?
      modifies this`owner, pmm`lastFreeIndex, pmm.bitmap
      ensures Valid()
      ensures addr == 0 ==> owner == old(owner) && pmm.Used() == old(pmm.Used())
      ensures count == 1 && addr == 0 ==> AllUsed(pmm.Used())
      ensures count >= 2 && addr == 0 ==> forall s: nat :: FreeRun(pmm.Used(), s, count) ==>
        s < SearchStart(pmm.lastFreeIndex, |pmm.Used()|) < s + count
      ensures addr != 0 ==> addr % 4096 == 0 && addr / 4096 + count <= FRAME_LIMIT
      ensures addr != 0 ==> forall p :: addr / 4096 <= p < addr / 4096 + count ==> p !in old(owner)
      ensures addr != 0 ==> owner == old(owner) + RangeOwner(addr / 4096, count, o)
    {
      hide WellFormed, FirstRun, FirstFree, ChooseRun, ChoosePage, FreeRun, OwnsUsed, Pmm.Valid, Pmm.Used, RangeOwner, PageRange;
      ghost var used, hint := pmm.Used(), pmm.lastFreeIndex;
      ChoiceIsFresh(used, count, hint, owner, o);
      addr := pmm.AllocPages(count);
      if addr != 0 {
        ghost var start := addr / 4096;
        assert addr == start * PAGE_SIZE;
        TablesStay(mem, owner, start, count, o);
        owner := owner + RangeOwner(start, count, o);
      }
    }

    // Gives back pages their caller was handed, all at once.
    method ReleaseFrames(addr: word, count: word) returns (r: Outcome<bool>)
      requires Valid() && addr % 4096 == 0 && addr != 0 && count != 0
      requires forall p :: addr / 4096 <= p < addr / 4096 + count ==> p in owner && owner[p] == Held
      modifies this`owner, pmm`lastFreeIndex, pmm.bitmap
      ensures Valid() && r == Returned(true) && owner == old(owner) - PageRange(addr / 4096, count)
    {
      hide WellFormed, OwnsUsed, PageRange, Pmm.Valid, Pmm.Used, FreeablePages;
      HeldAreNoTables(owner, addr / 4096, count);
      OwnedRunIsFreeable(pmm.Used(), owner, addr, count);
      TablesRemain(mem, owner, addr / 4096, count);
      r := pmm.FreePages(addr, count);
      owner := owner - PageRange(addr / 4096, count);
    }

    // Gives back a page its caller was handed.
    method ReleaseFrame(addr: word) returns (r: Outcome<bool>)
      requires Valid() && addr % 4096 == 0 && addr / 4096 in owner && owner[addr / 4096] == Held && addr != 0
      modifies this`owner, pmm`lastFreeIndex, pmm.bitmap
      ensures Valid() && r == Returned(true) && owner == old(owner) - {addr / 4096}
    {
      hide WellFormed;
      ghost var f := addr / 4096;
      OneOwnedPage(pmm.Used(), addr);
      r := pmm.FreePage(addr);
      SameTables(mem, owner, owner - {f});
      owner := owner - {f};
    }

    // Follows entry idx of table t, first linking a fresh zeroed table under it if the
    // entry is absent.
    method NextTable(t: nat, idx: nat, user: bool, ghost level: nat, ghost va: nat) returns (ok: bool, next: nat)
      requires Valid() && Rooted() && 2 <= level <= 4
      requires Serves(owner, t, level, va) && idx == Index(level, va)
      requires t in mem && !(Present(mem[t][idx]) && Large(mem[t][idx])) && (level == 2 ==> user)
      modifies this`mem, this`owner, pmm`lastFreeIndex, pmm.bitmap
      ensures Valid() && Rooted() && AddsTables(old(owner), owner)
      ensures ok ==> t in mem && Links(mem[t][idx], next) && Serves(owner, next, level - 1, va)
      ensures KeepsAbove(old(mem), mem, old(owner), 0) && SameWalks(old(mem), mem, root, user)
      ensures !ok ==> mem == old(mem) && owner == old(owner) && AllUsed(pmm.Used())
      ensures ok <==> Present(old(mem)[t][idx]) || old(Free()) > 0
      ensures Present(old(mem)[t][idx]) || !ok ==>
        mem == old(mem) && owner == old(owner) && pmm.Used() == old(pmm.Used())
      ensures ok && !Present(old(mem)[t][idx]) ==> Free() + 1 == old(Free()) && next !in old(owner) && next < FRAME_LIMIT
      ensures ok && !Present(old(mem)[t][idx]) ==> mem == LinkTable(old(mem), t, idx, next, if user then 7 else 3)
    {
      hide WellFormed, OwnsUsed, KeepsAbove, SameWalks, AddsTables, LinkTable, AllUsed, Serves, Links, FreeCount;
      NothingChanges(mem, owner, root, user);
      FollowEntry(mem, owner, t, level, va);
      var e := mem[t][idx];
      if Present(e) {
        return true, e / 4096;
      }
      ghost var slot := TableAt(level - 1, Prefix(level - 1, va));
      var addr := TakePage(slot);
      if addr == 0 {
        return false, 0;
      }
      next := addr / 4096;
      TableLinked(mem, owner, root, t, level, va, next, user);
      mem := LinkTable(mem, t, idx, next, if user then 7 else 3);
      owner := owner[next := slot];
      ok := true;
    }

    // Writes one leaf (or clears one) at the table the walk of va reaches.
    method WriteEntry(t: nat, idx: nat, e: word, ghost level: nat, ghost va: nat, ghost path: Perm)
      requires Valid() && Rooted() && 1 <= level <= 2 && (level == 1 || Large(e))
      requires Reaches(mem, root, 4, va, FULL_ACCESS, t, level, path) && idx == Index(level, va)
      modifies this`mem
      ensures Valid() && Rooted()
      ensures Remaps(old(mem), mem, root, level, va, if Present(e) then Hit(level, e, path) else Fault(path))
      ensures level == 1 || Present(e) ==> forall v: nat ::
        Missing(mem, root, v) == if level == 2 && Prefix(1, v) == Prefix(1, va) then 0 else Missing(old(mem), root, v)
    {
      hide WellFormed, OwnsUsed, Reaches, Remaps, Missing, Prefix;
      RootServes(owner, root, va, va);
      LeafWritten(mem, owner, root, t, level, va, path, e);
      if level == 1 || Present(e) {
        forall v: nat
          ensures Missing(mem[t := mem[t][idx := e]], root, v) ==
            if level == 2 && Prefix(1, v) == Prefix(1, va) then 0 else Missing(mem, root, v)
        {
          LeafFewer(mem, owner, root, va, t, level, path, e, v);
        }
      }
      mem := mem[t := mem[t][idx := e]];
    }

    // One step down: from the table the walk of va reaches at a level to the next.
    method Descend(t: nat, user: bool, va: nat, level: nat, ghost path: Perm)
      returns (ok: bool, next: nat, ghost path': Perm)
      requires Valid() && Rooted() && 2 <= level <= 4
      requires Reaches(mem, root, 4, va, FULL_ACCESS, t, level, path)
      requires level == 2 ==> user && !Translate(mem, root, va).IsLarge()
      modifies this`mem, this`owner, pmm`lastFreeIndex, pmm.bitmap
      ensures Valid() && Rooted() && AddsTables(old(owner), owner)
      ensures ok ==> Reaches(mem, root, 4, va, FULL_ACCESS, next, level - 1, path')
      ensures SameWalks(old(mem), mem, root, user)
      ensures !ok ==> mem == old(mem) && owner == old(owner) && AllUsed(pmm.Used())
      ensures !ok ==> old(Free()) == Free() == 0 && old(Lacks(va)) == level - 1
      ensures ok ==> Fewer(old(mem), mem, root, va, level - 2)
      ensures ok ==> Free() + old(Lacks(va)) == old(Free()) + Lacks(va) && Lacks(va) <= old(Lacks(va))
      ensures Free() == old(Free()) ==> mem == old(mem) && owner == old(owner) && pmm.Used() == old(pmm.Used())
    {
      hide WellFormed, PoolOwned, KeepsAbove, SameWalks, AddsTables, AllUsed, Serves, Reaches, Translate, Missing, Fewer, FreeCount,
        LinkTable;
      var idx := Index(level, va);
      DescendReady(mem, owner, root, t, level, va, path);
      DescentCounts(mem, owner, root, t, level, va, path);
      PoolParts(this);
      LacksIs(this, va);
      ghost var m0, o0, hadEntry := mem, owner, Present(mem[t][idx]);
      ok, next := NextTable(t, idx, user, level, va);
      path' := path;
      if ok {
        RootServes(old(owner), root, va, va);
        KeepsMore(old(mem), mem, old(owner), level);
        ReachesKept(old(mem), mem, old(owner), root, 4, va, va, FULL_ACCESS, t, level, path);
        path' := Restrict(path, mem[t][idx]);
        ReachesStep(mem, root, 4, va, FULL_ACCESS, t, level, path);
        if hadEntry {
          RootServes(owner, root, va, va);
          NothingFewer(mem, owner, root, va, next, level - 1, path');
        } else {
          LinkFewer(m0, o0, root, va, t, level, path, next, user);
          FewerAt(m0, mem, root, va, level - 2);
        }
        LacksIs(this, va);
      }
    }

    method MapPage(va: word, phys: nat, flags: word) returns (ok: bool)
      requires Valid() && Rooted()
      requires phys < PHYS_LIMIT && FlagsOk(flags)
      requires !Translate(mem, root, va).IsLarge()
      modifies this`mem, this`owner, pmm`lastFreeIndex, pmm.bitmap
      ensures Valid() && Rooted() && AddsTables(old(owner), owner)
      ensures ok ==> Remaps(old(mem), mem, root, 1, va,
                            Hit(1, LeafEntry(phys, flags, false), Translate(old(mem), root, va).path))
      ensures !ok ==> SameWalks(old(mem), mem, root, true) && AllUsed(pmm.Used())
      ensures ok <==> old(Free()) >= old(Lacks(va))
      ensures ok ==> Free() + old(Lacks(va)) == old(Free()) && Fewer(old(mem), mem, root, va, 0)
      ensures ok ==> |owner| == |old(owner)| + old(Lacks(va))
      ensures old(Lacks(va)) == 0 ==> owner == old(owner) && pmm.Used() == old(pmm.Used())
      ensures !ok ==> Free() == 0
    {
      hide *;
      ghost var m0 := mem;
      LacksIs(this, va);
      var pt;
      ghost var path;
      ok, pt, path := ReachPageTable(va);
      if !ok { return; }
      ghost var m1 := mem;
      SameWalkAt(m0, m1, root, true, va);
      PathAtTable(mem, root, pt, va, path);
      LeafEntryBits(phys, flags, false);
      WriteEntry(pt, Index(1, va), LeafEntry(phys, flags, false), 1, va, path);
      SameWalksThenRemaps(m0, m1, mem, root, 1, va, Hit(1, LeafEntry(phys, flags, false), path));
      SameMissing(m0, m1, mem, root, va, 0);
    }

    // The three get-or-create steps of a small page.
    method ReachPageTable(va: word) returns (ok: bool, pt: nat, ghost path: Perm)
      requires Valid() && Rooted() && !Translate(mem, root, va).IsLarge()
      modifies this`mem, this`owner, pmm`lastFreeIndex, pmm.bitmap
      ensures Valid() && Rooted() && AddsTables(old(owner), owner) && SameWalks(old(mem), mem, root, true)
      ensures ok ==> Reaches(mem, root, 4, va, FULL_ACCESS, pt, 1, path)
      ensures ok <==> old(Free()) >= old(Lacks(va))
      ensures ok ==> Free() + old(Lacks(va)) == old(Free()) && Fewer(old(mem), mem, root, va, 0)
      ensures ok ==> |owner| == |old(owner)| + old(Lacks(va))
      ensures old(Lacks(va)) == 0 ==> owner == old(owner) && pmm.Used() == old(pmm.Used())
      ensures !ok ==> Free() == 0 && AllUsed(pmm.Used())
    {
      hide *;
      var pdpt, pd;
      pt, path := 0, FULL_ACCESS;
      ghost var m0, o0 := mem, owner;
      LacksIs(this, va);
      OwnedAreCounted(this);
      ReachesRoot(mem, root, va);
      ok, pdpt, path := Descend(root, true, va, 4, path);
      if !ok { return; }
      ghost var m1, o1 := mem, owner;
      ok, pd, path := Descend(pdpt, true, va, 3, path);
      SameWalksCompose(m0, m1, mem, root, true);
      AddsTablesCompose(o0, o1, owner);
      if !ok { return; }
      ghost var m2, o2 := mem, owner;
      SameWalkAt(m0, m2, root, true, va);
      ok, pt, path := Descend(pd, true, va, 2, path);
      SameWalksCompose(m0, m2, mem, root, true);
      AddsTablesCompose(o0, o2, owner);
      if !ok { return; }
      LacksIs(this, va);
      FewerCompose(m0, m1, m2, root, va, 1);
      FewerCompose(m0, m2, mem, root, va, 0);
      FewerAt(m0, mem, root, va, 0);
      OwnedAreCounted(this);
    }

    // Looks up one level without creating anything.
    method LookUp(t: nat, va: nat, level: nat, ghost path: Perm) returns (present: bool, next: nat, ghost path': Perm)
      requires Valid() && Rooted() && 1 <= level <= 4
      requires Reaches(mem, root, 4, va, FULL_ACCESS, t, level, path)
      requires !Translate(mem, root, va).IsLarge()
      ensures !present ==> Translate(mem, root, va).Fault?
      ensures present && level > 1 ==> Reaches(mem, root, 4, va, FULL_ACCESS, next, level - 1, path')
      ensures present && level == 1 ==> Translate(mem, root, va).Hit?
    {
      hide PoolOwned, WellFormed, Reaches;
      RootServes(owner, root, va, va);
      ReachesKept(mem, mem, owner, root, 4, va, va, FULL_ACCESS, t, level, path) by {
        NothingChanges(mem, owner, root, true);
        KeepsMore(mem, mem, owner, level);
      }
      ReachesWalk(mem, root, 4, va, FULL_ACCESS, t, level, path);
      ChildServes(mem, owner, t, level, va);
      var e := mem[t][Index(level, va)];
      present, next, path' := Present(e), e / 4096, Restrict(path, e);
      if present && level > 1 {
        TableAddress(e);
        ReachesStep(mem, root, 4, va, FULL_ACCESS, t, level, path);
      }
    }

    method UnmapPage(va: word) returns (ok: bool)
      requires Valid() && Rooted() && !Translate(mem, root, va).IsLarge()
      modifies this`mem
      ensures Valid() && Rooted()
      ensures ok <==> Translate(old(mem), root, va).Hit?
      ensures ok ==> Remaps(old(mem), mem, root, 1, va, Fault(Translate(old(mem), root, va).path))
      ensures !ok ==> mem == old(mem)
    {
      hide PoolOwned, WellFormed, Reaches, Remaps, Translate;
      var pdpt, pd, pt, frame;
      ghost var path, leafPath := FULL_ACCESS, FULL_ACCESS;
      ReachesRoot(mem, root, va);
      ok, pdpt, path := LookUp(root, va, 4, path);
      if !ok { return; }
      ok, pd, path := LookUp(pdpt, va, 3, path);
      if !ok { return; }
      ok, pt, path := LookUp(pd, va, 2, path);
      if !ok { return; }
      ok, frame, leafPath := LookUp(pt, va, 1, path);
      if !ok { return; }
      PathAtTable(mem, root, pt, va, path);
      WriteEntry(pt, Index(1, va), 0, 1, va, path);
    }
  }

  // On the way down an absent entry means a missing table; a present one, none here.
  lemma DescentCounts(mem: Memory, owner: map<nat, Owner>, root: nat, t: nat, level: nat, va: nat, path: Perm)
    requires WellFormed(mem, owner) && 2 <= level <= 4 && Reaches(mem, root, 4, va, FULL_ACCESS, t, level, path) && t in mem
    ensures !Present(mem[t][Index(level, va)]) ==> Missing(mem, root, va) == level - 1
  {
    MissingReaches(mem, root, 4, va, FULL_ACCESS, t, level, path);
  }

  // Every page is owned or free, so what is taken from the free ones is owned.
  lemma OwnedAreCounted(vm: Vmm)
    requires vm.Valid()
    ensures vm.pmm.Valid() && |vm.owner| + vm.Free() == vm.pmm.totalPages
  {
    var u := vm.pmm.Used();
    UsedPagesCount(u);
    assert vm.owner.Keys == UsedPages(u);
  }

  function UsedPages(u: seq<bool>): (s: set<nat>)
    ensures forall p :: p in s <==> 0 <= p < |u| && u[p]
  {
    if u == [] then {} else UsedPages(u[..|u| - 1]) + if u[|u| - 1] then {|u| - 1} else {}
  }

  lemma {:induction false} UsedPagesCount(u: seq<bool>)
    ensures |UsedPages(u)| + FreeCount(u) == |u|
  {
    if u != [] {
      UsedPagesCount(u[..|u| - 1]);
    }
  }

  lemma PoolParts(vm: Vmm)
    requires vm.Valid()
    ensures vm.pmm.Valid() && (vm.Free() == 0 <==> AllUsed(vm.pmm.Used()))
  {
    NoFreePage(vm.pmm.Used());
  }

  lemma LacksIs(vm: Vmm, va: nat)
    ensures vm.Lacks(va) == Missing(vm.mem, vm.root, va)
  {
  }

  lemma FewerAt(mem: Memory, mem': Memory, root: nat, va: nat, below: nat)
    requires Fewer(mem, mem', root, va, below)
    ensures Missing(mem', root, va) == if Missing(mem, root, va) <= below then Missing(mem, root, va) else below
  {
    hide Missing;
    assert Parting(va, va) == 0;
  }

  lemma SameMissing(m0: Memory, m1: Memory, m2: Memory, root: nat, va: nat, below: nat)
    requires Fewer(m0, m1, root, va, below) && forall v: nat :: Missing(m2, root, v) == Missing(m1, root, v)
    ensures Fewer(m0, m2, root, va, below)
  {
    hide Missing, Parting;
  }

  lemma NothingChanges(mem: Memory, owner: map<nat, Owner>, root: nat, user: bool)
    ensures AddsTables(owner, owner) && KeepsAbove(mem, mem, owner, 0) && SameWalks(mem, mem, root, user)
  {
  }

  lemma KeepsMore(mem: Memory, mem': Memory, owner: map<nat, Owner>, level: nat)
    requires KeepsAbove(mem, mem', owner, 0)
    ensures KeepsAbove(mem, mem', owner, level)
  {
  }

  lemma AddsTablesCompose(o0: map<nat, Owner>, o1: map<nat, Owner>, o2: map<nat, Owner>)
    requires AddsTables(o0, o1) && AddsTables(o1, o2)
    ensures AddsTables(o0, o2)
  {
  }

  // A present entry on the walk: the kernel's PAGE_FRAME_MASK reads the same frame the
  // processor reads, and it holds the next table.
  lemma FollowEntry(mem: Memory, owner: map<nat, Owner>, t: nat, level: nat, va: nat)
    requires WellFormed(mem, owner) && 2 <= level <= 4 && Serves(owner, t, level, va)
    ensures t in mem
    ensures var e := mem[t][Index(level, va)];
      Present(e) && !Large(e) ==> Links(e, e / 4096) && Serves(owner, e / 4096, level - 1, va)
  {
    ChildServes(mem, owner, t, level, va);
    var e := mem[t][Index(level, va)];
    if Present(e) && !Large(e) {
      TableAddress(e);
    }
  }

  lemma DescendReady(mem: Memory, owner: map<nat, Owner>, root: nat, t: nat, level: nat, va: nat, path: Perm)
    requires WellFormed(mem, owner) && root in owner && owner[root] == TableAt(4, 0) && 2 <= level <= 4
    requires Reaches(mem, root, 4, va, FULL_ACCESS, t, level, path)
    requires level == 2 ==> !Translate(mem, root, va).IsLarge()
    ensures Serves(owner, t, level, va) && t in mem
    ensures !(Present(mem[t][Index(level, va)]) && Large(mem[t][Index(level, va)]))
  {
    RootServes(owner, root, va, va);
    ReachesKept(mem, mem, owner, root, 4, va, va, FULL_ACCESS, t, level, path);
    ReachesWalk(mem, root, 4, va, FULL_ACCESS, t, level, path);
    ChildServes(mem, owner, t, level, va);
  }

  // Everything linking a fresh table does, in one place.
  lemma TableLinked(mem: Memory, owner: map<nat, Owner>, root: nat, t: nat, level: nat, va: nat, f: nat, user: bool)
    requires WellFormed(mem, owner) && root in owner && owner[root] == TableAt(4, 0)
    requires 2 <= level <= 4 && Serves(owner, t, level, va) && t in mem && !Present(mem[t][Index(level, va)])
    requires f !in owner && f < FRAME_LIMIT && (level == 2 ==> user)
    ensures var mem' := LinkTable(mem, t, Index(level, va), f, if user then 7 else 3);
      var owner' := owner[f := TableAt(level - 1, Prefix(level - 1, va))];
      && WellFormed(mem', owner') && AddsTables(owner, owner')
      && t in mem' && Links(mem'[t][Index(level, va)], f) && Serves(owner', f, level - 1, va)
      && KeepsAbove(mem, mem', owner, 0) && mem.Keys <= mem'.Keys
      && SameWalks(mem, mem', root, user)
  {
    var idx := Index(level, va);
    PrefixStep(level, va);
    LinkEntryBits(f, user);
    LinkKeepsWellFormed(mem, owner, t, idx, f, user);
    LinkKeepsEntries(mem, owner, t, idx, f, user);
    LinkKeepsWalks(mem, owner, root, t, idx, f, user);
  }

  // The frame the kernel reads with PAGE_FRAME_MASK is the one the processor reads.
  lemma TableAddress(e: nat)
    requires e < PHYS_LIMIT
    ensures FrameOf(e) == e / 4096
  {
  }

  lemma LinkKeepsEntries(mem: Memory, owner: map<nat, Owner>, t: nat, i: nat, f: nat, user: bool)
    requires f !in owner && f < FRAME_LIMIT && t in mem && t in owner && i < 512 && !Present(mem[t][i])
    ensures KeepsAbove(mem, LinkTable(mem, t, i, f, if user then 7 else 3), owner, 0)
  {
    var mem' := LinkTable(mem, t, i, f, if user then 7 else 3);
    forall x | IsTable(owner, x) && x in mem
      ensures KeepsRow(mem, mem', x)
    {
    }
  }

  lemma LinkKeepsWalks(mem: Memory, owner: map<nat, Owner>, root: nat, t: nat, i: nat, f: nat, user: bool)
    requires WellFormed(mem, owner) && IsTable(owner, t) && 1 < owner[t].level && i < 512
    requires f !in owner && f < FRAME_LIMIT && t in mem && !Present(mem[t][i])
    requires root in owner && owner[root] == TableAt(4, 0)
    ensures SameWalks(mem, LinkTable(mem, t, i, f, if user then 7 else 3), root, user)
  {
    forall v: nat
      ensures SameWalk(Translate(mem, root, v), Translate(LinkTable(mem, t, i, f, if user then 7 else 3), root, v), user)
    {
      RootServes(owner, root, v, v);
      WalkLinked(mem, owner, t, i, f, user, root, 4, v, FULL_ACCESS);
    }
  }

  lemma OneOwnedPage(u: seq<bool>, addr: word)
    requires addr % 4096 == 0 && addr / 4096 < |u| && u[addr / 4096]
    ensures FreeablePages(u, addr, 1)
  {
  }

  // Well-formedness is about the tables only.
  lemma SameTables(mem: Memory, owner: map<nat, Owner>, owner': map<nat, Owner>)
    requires WellFormed(mem, owner)
    requires forall t :: IsTable(owner', t) ==> IsTable(owner, t)
    requires forall t :: IsTable(owner, t) ==> IsTable(owner', t) && owner'[t] == owner[t]
    ensures WellFormed(mem, owner')
  {
    forall t | IsTable(owner', t)
      ensures TableOk(mem, owner', t)
    {
      assert TableOk(mem, owner, t);
      forall i | 0 <= i < 512
        ensures EntryOk(mem[t][i], owner'[t].level, owner'[t].prefix * 512 + i, owner')
      {
        var next := FrameOf(mem[t][i]);
        assert EntryOk(mem[t][i], owner[t].level, owner[t].prefix * 512 + i, owner);
        assert IsTable(owner, next) ==> IsTable(owner', next);
      }
    }
  }

  // n pages from start on, all with the role o.
  ghost function RangeOwner(start: nat, n: nat, o: Owner): map<nat, Owner> {
    map p | p in PageRange(start, n) :: o
  }

  function PageRange(start: nat, n: nat): (r: set<nat>)
    ensures forall p :: p in r <==> start <= p < start + n
  {
    if n == 0 then {} else PageRange(start, n - 1) + {start + n - 1}
  }

  lemma TablesStay(mem: Memory, owner: map<nat, Owner>, start: nat, n: nat, o: Owner)
    requires WellFormed(mem, owner) && !o.TableAt? && forall p :: start <= p < start + n ==> p !in owner
    ensures WellFormed(mem, owner + RangeOwner(start, n, o))
  {
    hide WellFormed;
    SameTables(mem, owner, owner + RangeOwner(start, n, o));
  }

  lemma TablesRemain(mem: Memory, owner: map<nat, Owner>, start: nat, n: nat)
    requires WellFormed(mem, owner) && forall p :: start <= p < start + n ==> !IsTable(owner, p)
    ensures WellFormed(mem, owner - PageRange(start, n))
  {
    hide WellFormed;
    SameTables(mem, owner, owner - PageRange(start, n));
  }

  lemma HeldAreNoTables(owner: map<nat, Owner>, start: nat, n: nat)
    requires forall p :: start <= p < start + n ==> p in owner && owner[p] == Held
    ensures forall p :: start <= p < start + n ==> p in owner && !IsTable(owner, p)
  {
  }

  // The pages of a free run have no owner yet; taking them gives them one.
  lemma RunIsFresh(u: seq<bool>, owner: map<nat, Owner>, start: nat, n: nat, o: Owner)
    requires OwnsUsed(owner, u) && FreeRun(u, start, n)
    ensures forall p :: start <= p < start + n ==> p !in owner
    ensures OwnsUsed(owner + RangeOwner(start, n, o), SetRange(u, start, start + n, true))
  {
  }

  lemma OneIsRange(owner: map<nat, Owner>, u: seq<bool>, p: nat, o: Owner)
    requires p < |u|
    ensures owner[p := o] == owner + RangeOwner(p, 1, o)
    ensures u[p := true] == SetRange(u, p, p + 1, true)
    ensures !u[p] ==> FreeRun(u, p, 1)
  {
  }

  // What the allocator chooses for count pages, with page 0 in use.
  lemma ChoiceIsFresh(u: seq<bool>, count: nat, hint: nat, owner: map<nat, Owner>, o: Owner)
    requires OwnsUsed(owner, u) && 0 in owner
    ensures count == 1 ==> match ChoosePage(u, hint)
      case None => AllUsed(u)
      case Some(p) => 0 < p < |u| && RunTaken(u, owner, p, 1, o, u[p := true])
    ensures count >= 2 ==> match ChooseRun(u, count, hint)
      case None => forall s: nat :: FreeRun(u, s, count) ==> s < SearchStart(hint, |u|) < s + count
      case Some(s) => 0 < s && RunTaken(u, owner, s, count, o, SetRange(u, s, s + count, true))
  {
    if count == 1 {
      ChosenPageIsFresh(u, hint, owner, o);
      if ChoosePage(u, hint).Some? {
        OneIsRange(owner, u, ChoosePage(u, hint).value, o);
        RunIsFresh(u, owner, ChoosePage(u, hint).value, 1, o);
      }
    } else if count >= 2 {
      hide ChooseRun;
      ChooseRunExact(u, count, hint);
      if ChooseRun(u, count, hint).Some? {
        RunIsFresh(u, owner, ChooseRun(u, count, hint).value, count, o);
      }
    }
  }

  ghost predicate RunTaken(u: seq<bool>, owner: map<nat, Owner>, start: nat, n: nat, o: Owner, u': seq<bool>) {
    && start + n <= |u| && |u'| == |u|
    && (forall p :: start <= p < start + n ==> p !in owner)
    && OwnsUsed(owner + RangeOwner(start, n, o), u')
  }

  lemma OwnedRunIsFreeable(u: seq<bool>, owner: map<nat, Owner>, addr: word, n: nat)
    requires OwnsUsed(owner, u) && addr % 4096 == 0 && n >= 1 && |u| <= FRAME_LIMIT
    requires forall p :: addr / 4096 <= p < addr / 4096 + n ==> p in owner
    ensures FreeablePages(u, addr, n) && addr / 4096 + n <= |u|
    ensures OwnsUsed(owner - PageRange(addr / 4096, n), SetRange(u, addr / 4096, addr / 4096 + n, false))
  {
    assert addr / 4096 + (n - 1) in owner;
  }

  lemma PathOfPage(vm: Vmm, va: nat)
    requires vm.Valid() && vm.Rooted()
    ensures Translate(vm.mem, vm.root, va).path.w && !Translate(vm.mem, vm.root, va).path.nx
  {
    RootServes(vm.owner, vm.root, va, va);
    PathIsPermissive(vm.mem, vm.owner, vm.root, 4, va, FULL_ACCESS);
  }

  lemma AddingExtends(o0: map<nat, Owner>, o1: map<nat, Owner>)
    requires AddsTables(o0, o1)
    ensures Extends(o0, o1)
  {
  }

  lemma ExtendsCompose(o0: map<nat, Owner>, o1: map<nat, Owner>, o2: map<nat, Owner>)
    requires Extends(o0, o1) && Extends(o1, o2)
    ensures Extends(o0, o2)
  {
  }

  // A freshly mapped page's rights: those of the flags, except that user access also
  // needs every table already on the walk to grant it.
  lemma MapPageRights(vm: Vmm, va: nat, phys: nat, flags: nat, v: nat)
    requires vm.Valid() && vm.Rooted() && phys < PHYS_LIMIT && FlagsOk(flags)
    requires v / 4096 == va / 4096
    ensures var path := Translate(vm.mem, vm.root, va).path; var w := Hit(1, LeafEntry(phys, flags, false), path);
      && w.Rights() == Perm(Writable(flags), User(flags) && path.u, NoExecute(flags))
      && w.Target(v) == phys / 4096 * 4096 + v % 4096
  {
    hide Translate, Bit, LeafEntry, FlagsOk;
    PathOfPage(vm, va);
    LeafEntryBits(phys, flags, false);
  }

  // In an empty address space, one table linked as a mapping without user access links
  // it leaves a page mapped below it with the user flag closed to user code.
  lemma UserPageUnderKernelTable(mem: Memory, root: nat, f: nat, va: nat)
    requires f != root && f < FRAME_LIMIT
    ensures var m := LinkTable(mem[root := EmptyTable()], root, Index(4, va), f, 3);
      var path := Translate(m, root, va).path;
      && !path.u
      && User(7) && FlagsOk(7) && !Hit(1, LeafEntry(0, 7, false), path).Rights().u
  {
    var m := LinkTable(mem[root := EmptyTable()], root, Index(4, va), f, 3);
    var e := m[root][Index(4, va)];
    LinkEntryBits(f, false);
    assert e == LinkEntry(f, 3) && m[f] == EmptyTable();
    assert !Present(EmptyTable()[Index(3, va)]);
    assert WalkFrom(m, f, 3, va, Restrict(FULL_ACCESS, e)) == Fault(Restrict(FULL_ACCESS, e));
    assert User(7) by {
      assert Bit(3, 1) && Bit(1, 0);
    }
  }

  // Mapping a page that was not mapped and unmapping it again restores every walk.
  lemma MapThenUnmapRestores(m0: Memory, m1: Memory, m2: Memory, root: nat, va: nat, phys: nat, flags: nat)
    requires phys < PHYS_LIMIT && FlagsOk(flags) && Translate(m0, root, va).Fault?
    requires Remaps(m0, m1, root, 1, va, Hit(1, LeafEntry(phys, flags, false), Translate(m0, root, va).path))
    requires Remaps(m1, m2, root, 1, va, Fault(Translate(m1, root, va).path))
    ensures SameWalks(m0, m2, root, true)
  {
    hide LeafEntry, FlagsOk, Translate, Prefix;
    forall v: nat
      ensures SameWalk(Translate(m0, root, v), Translate(m2, root, v), true)
    {
      if Prefix(0, v) == Prefix(0, va) {
        PageHasOneWalk(m0, root, v, va);
        assert Translate(m1, root, va).path == Translate(m0, root, va).path;
      }
    }
  }

  lemma PageHasOneWalk(mem: Memory, root: nat, a: nat, b: nat)
    requires Prefix(0, a) == Prefix(0, b)
    ensures Translate(mem, root, a) == Translate(mem, root, b)
  {
    SamePageSameWalk(mem, root, 4, a, b, FULL_ACCESS);
  }

  // Table frames form a tree: tables reached for different levels or address prefixes
  // are different frames, and each is owned as a table and marked used.
  lemma TableFramesAreDistinct(vm: Vmm, va: nat, t: nat, level: nat, path: Perm, va': nat, t': nat, level': nat, path': Perm)
    requires vm.Valid() && vm.Rooted() && 1 <= level <= 4 && 1 <= level' <= 4
    requires Reaches(vm.mem, vm.root, 4, va, FULL_ACCESS, t, level, path)
    requires Reaches(vm.mem, vm.root, 4, va', FULL_ACCESS, t', level', path')
    ensures IsTable(vm.owner, t) && t < vm.pmm.totalPages && vm.pmm.Used()[t]
    ensures t == t' <==> level == level' && Prefix(level, va) == Prefix(level', va')
  {
    hide WellFormed, Prefix;
    NothingChanges(vm.mem, vm.owner, vm.root, true);
    KeepsMore(vm.mem, vm.mem, vm.owner, level);
    KeepsMore(vm.mem, vm.mem, vm.owner, level');
    RootServes(vm.owner, vm.root, va, va);
    RootServes(vm.owner, vm.root, va', va');
    ReachesKept(vm.mem, vm.mem, vm.owner, vm.root, 4, va, va, FULL_ACCESS, t, level, path);
    ReachesKept(vm.mem, vm.mem, vm.owner, vm.root, 4, va', va', FULL_ACCESS, t', level', path');
    if level == level' && Prefix(level, va) == Prefix(level', va') {
      ReachesKept(vm.mem, vm.mem, vm.owner, vm.root, 4, va, va', FULL_ACCESS, t, level, path);
      ReachesOnce(vm.mem, vm.root, 4, va', FULL_ACCESS, t, t', level, path, path');
    }
  }

  lemma {:induction false} ReachesOnce(mem: Memory, x: nat, l: nat, va: nat, path: Perm, t: nat, t': nat, level: nat,
                                       p: Perm, p': Perm)
    requires 1 <= level <= l <= 4
    requires Reaches(mem, x, l, va, path, t, level, p) && Reaches(mem, x, l, va, path, t', level, p')
    ensures t == t' && p == p'
    decreases l
  {
    if level < l {
      var e := mem[x][Index(l, va)];
      ReachesOnce(mem, FrameOf(e), l - 1, va, Restrict(path, e), t, t', level, p, p');
    }
  }
}
