// The boot address space: vmm_map_hhdm, vmm_map_kernel, vmm_map_framebuffer and
// vmm_init of src/kernel/memory/vmm.c.
module Boot {
  import opened Wrappers
  import opened Words
  import opened Pmm
  import opened PmmInit
  import opened Paging
  import opened MissingTables
  import opened Vmm
  import opened Ranges

  const KERNEL_BASE: nat := 0xFFFF_FFFF_8000_0000
  const HIGHER_HALF: nat := 0xFFFF_8000_0000_0000
  const RW: nat := 3
  const RX: nat := 1
  const RO_DATA: nat := 0x8000_0000_0000_0001
  const RW_DATA: nat := 0x8000_0000_0000_0003

  const NO_WALK: Walk := Fault(FULL_ACCESS)

  function PageDown(a: nat): nat { AlignDown(a, 4096) }
  function PageUp(a: nat): nat { AlignUp(a, 4096) }

  // Where the boot loader put things, and the linker's section symbols.
  datatype Section = Section(start: nat, end: nat)
  datatype Kernel = Kernel(requests: Section, text: Section, rodata: Section, data: Section,
                           physicalBase: nat, virtualBase: nat)
  datatype FrameBuffer = FrameBuffer(address: nat, size: nat)

  function HhdmRange(e: MemEntry, hhdm: nat): Range {
    Range(hhdm + PageDown(e.base), hhdm + PageUp(e.End()), PageDown(e.base), RW)
  }

  function SectionRange(k: Kernel, s: Section, flags: nat): Range {
    var start := PageDown(s.start);
    Range(start, PageUp(s.end), if k.virtualBase <= start then k.physicalBase + (start - k.virtualBase) else 0, flags)
  }

  function FrameBufferRange(fb: FrameBuffer, hhdm: nat): Range {
    Range(PageDown(fb.address), PageUp(fb.address + fb.size),
          if hhdm <= fb.address then PageDown(fb.address - hhdm) else 0, RW)
  }

  // All the ranges vmm_init maps, in order.
  function BootRanges(m: MemMap, k: Kernel, fb: Option<FrameBuffer>, hhdm: nat): seq<Range> {
    HhdmRanges(m, hhdm) + KernelRanges(k) + (if fb.Some? then [FrameBufferRange(fb.value, hhdm)] else [])
  }

  function HhdmRanges(m: MemMap, hhdm: nat): (rs: seq<Range>)
    ensures |rs| == |m|
    ensures forall i :: 0 <= i < |m| ==> rs[i] == HhdmRange(m[i], hhdm)
  {
    seq(|m|, i requires 0 <= i < |m| => HhdmRange(m[i], hhdm))
  }

  function KernelRanges(k: Kernel): seq<Range> {
    [SectionRange(k, k.requests, RO_DATA), SectionRange(k, k.text, RX),
     SectionRange(k, k.rodata, RO_DATA), SectionRange(k, k.data, RW_DATA)]
  }

  predicate Disjoint(a: Range, b: Range) { a.end <= b.virt || b.end <= a.virt }

  // Ranges that can be mapped one after the other: each is well formed, asks for no
  // user access, and is disjoint from or equal to every other.
  ghost predicate Compatible(rs: seq<Range>) {
    && (forall i :: 0 <= i < |rs| ==> rs[i].Ok() && !User(rs[i].flags))
    && (forall i, j :: 0 <= i < |rs| && 0 <= j < |rs| ==> Disjoint(rs[i], rs[j]) || rs[i] == rs[j])
  }

  // Exactly the ranges rs are mapped: each address of each as it asks, and no other.
  ghost predicate ExactlyMapped(mem: Memory, root: nat, rs: seq<Range>) {
    forall v: nat :: Canonical(v) ==> AddressMapped(mem, root, rs, v)
  }

  ghost predicate AddressMapped(mem: Memory, root: nat, rs: seq<Range>, v: nat) {
    && (forall i :: 0 <= i < |rs| && rs[i].Covers(v) ==> MapsTo(rs[i], v, NO_WALK, Translate(mem, root, v)))
    && ((forall i :: 0 <= i < |rs| ==> !rs[i].Covers(v)) ==> Translate(mem, root, v).Fault?)
  }

  lemma NextRangeMapped(m0: Memory, m1: Memory, root: nat, rs: seq<Range>, r: Range)
    requires Compatible(rs + [r]) && ExactlyMapped(m0, root, rs) && r.virt <= r.end
    requires MappedUpTo(m0, m1, root, r, r.end)
    ensures ExactlyMapped(m1, root, rs + [r])
  {
    hide Translate, MapsTo, Range.Ok, User, Compatible;
    forall v: nat | Canonical(v)
      ensures AddressMapped(m1, root, rs + [r], v)
    {
      assert AddressMapped(m0, root, rs, v) && PageDone(m0, m1, root, r, r.end, v);
      NextAddressMapped(m0, m1, root, rs, r, v);
    }
  }

  lemma NextAddressMapped(m0: Memory, m1: Memory, root: nat, rs: seq<Range>, r: Range, v: nat)
    requires Compatible(rs + [r]) && AddressMapped(m0, root, rs, v) && r.virt <= r.end
    requires PageDone(m0, m1, root, r, r.end, v)
    ensures AddressMapped(m1, root, rs + [r], v)
  {
    hide Translate, MapsTo, Range.Ok, User;
    var all, w0, w := rs + [r], Translate(m0, root, v), Translate(m1, root, v);
    assert all[|rs|] == r;
    forall i | 0 <= i < |all| && all[i].Covers(v)
      ensures MapsTo(all[i], v, NO_WALK, w)
    {
      if r.Covers(v) {
        assert all[i] == r;
        NoUserForgetsOldWalk(r, v, w0, w);
      } else {
        assert all[i] == rs[i];
        MapsToIsHit(rs[i], v, NO_WALK, w0);
      }
    }
    if forall i :: 0 <= i < |all| ==> !all[i].Covers(v) {
      forall i | 0 <= i < |rs|
        ensures !rs[i].Covers(v)
      {
        assert all[i] == rs[i];
      }
    }
  }

  lemma NoUserForgetsOldWalk(r: Range, v: nat, w0: Walk, w: Walk)
    requires r.Covers(v) && MapsTo(r, v, w0, w) && !User(r.flags)
    ensures MapsTo(r, v, NO_WALK, w)
  {
  }

  lemma NextRangeIsClear(mem: Memory, root: nat, rs: seq<Range>, r: Range)
    requires Compatible(rs + [r]) && ExactlyMapped(mem, root, rs)
    ensures NoLargeInTheWay(mem, root, r)
  {
    hide Translate, Range.Ok, User;
    var all := rs + [r];
    assert all[|rs|] == r;
    forall v: nat | r.Covers(v) && !r.LargeBlock(v)
      ensures !Translate(mem, root, v).IsLarge()
    {
      RangeIsCanonical(r, v) by {
        assert all[|rs|].Ok();
      }
      assert AddressMapped(mem, root, rs, v);
      if i :| 0 <= i < |rs| && rs[i].Covers(v) {
        assert all[i] == rs[i];
        assert rs[i] == r;
      }
    }
  }

  // Page-aligned, pairwise disjoint memory map entries below the kernel's addresses.
  ghost predicate MapLayout(m: MemMap, hhdm: nat) {
    && hhdm % 4096 == 0 && hhdm >= HIGHER_HALF
    && (forall i :: 0 <= i < |m| ==> EntryLayout(m[i], hhdm))
    && (forall i, j :: 0 <= i < j < |m| ==> m[i].End() <= m[j].base || m[j].End() <= m[i].base)
  }

  predicate EntryLayout(e: MemEntry, hhdm: nat) {
    e.base % 4096 == 0 && e.length % 4096 == 0 && e.End() <= PHYS_LIMIT && hhdm + e.End() <= KERNEL_BASE
  }

  // The linker script's order of sections, each starting on a page boundary of its own.
  predicate KernelLayout(k: Kernel) {
    && KERNEL_BASE <= k.virtualBase && k.virtualBase % 4096 == 0 && k.physicalBase % 4096 == 0
    && k.virtualBase <= PageDown(k.requests.start)
    && k.requests.start <= k.requests.end && PageUp(k.requests.end) <= PageDown(k.text.start)
    && k.text.start <= k.text.end && PageUp(k.text.end) <= PageDown(k.rodata.start)
    && k.rodata.start <= k.rodata.end && PageUp(k.rodata.end) <= PageDown(k.data.start)
    && k.data.start <= k.data.end && PageUp(k.data.end) < WORD_LIMIT
    && k.physicalBase + (PageUp(k.data.end) - k.virtualBase) <= PHYS_LIMIT
  }

  // The framebuffer's pages are disjoint from every entry, or exactly those of one.
  ghost predicate FrameBufferLayout(m: MemMap, fb: FrameBuffer, hhdm: nat) {
    && hhdm <= fb.address && PageUp(fb.address + fb.size) <= KERNEL_BASE
    && PageUp(fb.address + fb.size) - hhdm <= PHYS_LIMIT
    && var start, end := PageDown(fb.address - hhdm), PageUp(fb.address + fb.size) - hhdm;
    && ((forall i :: 0 <= i < |m| ==> m[i].End() <= start || end <= m[i].base)
        || exists i :: 0 <= i < |m| && m[i].base == start && m[i].End() == end)
  }

  ghost predicate BootLayout(m: MemMap, k: Kernel, fb: Option<FrameBuffer>, hhdm: nat) {
    MapLayout(m, hhdm) && KernelLayout(k) && (fb.Some? ==> FrameBufferLayout(m, fb.value, hhdm))
  }

  lemma FlagFacts()
    ensures FlagsOk(RW) && FlagsOk(RX) && FlagsOk(RO_DATA) && FlagsOk(RW_DATA)
    ensures !User(RW) && !User(RX) && !User(RO_DATA) && !User(RW_DATA)
    ensures Writable(RW) && !Writable(RX) && !Writable(RO_DATA) && Writable(RW_DATA)
    ensures !NoExecute(RW) && !NoExecute(RX) && NoExecute(RO_DATA) && NoExecute(RW_DATA)
  {
    WordLimitIsPow2();
    assert Pow2(64) == 2 * Pow2(63);
    HighFlag(1);
    HighFlag(3);
    SmallHasNoHighBit(1, 2, 63);
    SmallHasNoHighBit(3, 2, 63);
    assert Bit(3, 1) && !Bit(3, 2) && !Bit(1, 1) && !Bit(1, 2);
  }

  lemma HighFlag(low: nat)
    requires low < 4 && Pow2(63) == 0x8000_0000_0000_0000
    ensures forall i :: 0 <= i < 63 ==> Bit(0x8000_0000_0000_0000 + low, i) == Bit(low, i)
    ensures Bit(0x8000_0000_0000_0000 + low, 63)
  {
    forall i | 0 <= i < 63
      ensures Bit(0x8000_0000_0000_0000 + low, i) == Bit(low, i)
    {
      SplitBit(low, 1, 63, i);
    }
    SplitBit(low, 1, 63, 63);
    assert Bit(1, 0);
  }

  lemma HhdmRangeIs(e: MemEntry, hhdm: nat)
    requires EntryLayout(e, hhdm) && hhdm % 4096 == 0 && hhdm >= HIGHER_HALF
    ensures HhdmRange(e, hhdm) == Range(hhdm + e.base, hhdm + e.End(), e.base, RW)
    ensures HhdmRange(e, hhdm).Ok() && HhdmRange(e, hhdm).end <= KERNEL_BASE
  {
    assert PageDown(e.base) == e.base && PageUp(e.End()) == e.End();
  }

  function AlignedFrameBuffer(fb: FrameBuffer, hhdm: nat): Range
    requires hhdm <= fb.address
  {
    var start := PageDown(fb.address - hhdm);
    Range(hhdm + start, PageUp(fb.address + fb.size), start, RW)
  }

  lemma FrameBufferRangeIs(fb: FrameBuffer, hhdm: nat)
    requires hhdm <= fb.address && hhdm % 4096 == 0 && hhdm >= HIGHER_HALF
    requires PageUp(fb.address + fb.size) <= KERNEL_BASE && PageUp(fb.address + fb.size) - hhdm <= PHYS_LIMIT
    ensures FrameBufferRange(fb, hhdm) == AlignedFrameBuffer(fb, hhdm)
    ensures FrameBufferRange(fb, hhdm).Ok()
  {
    assert fb.address / 4096 == hhdm / 4096 + (fb.address - hhdm) / 4096;
    assert FlagsOk(RW);
  }

  lemma SectionRangeIs(k: Kernel, s: Section, flags: nat)
    requires k.virtualBase % 4096 == 0 && k.physicalBase % 4096 == 0 && KERNEL_BASE <= k.virtualBase
    requires k.virtualBase <= PageDown(s.start) && s.start <= s.end && PageUp(s.end) < WORD_LIMIT
    requires k.physicalBase + (PageUp(s.end) - k.virtualBase) <= PHYS_LIMIT && FlagsOk(flags)
    ensures var r := SectionRange(k, s, flags);
      r.Ok() && r.virt == PageDown(s.start) && r.end == PageUp(s.end) && r.flags == flags
      && r.phys == k.physicalBase + (r.virt - k.virtualBase)
  {
  }

  lemma LayoutIsCompatible(m: MemMap, k: Kernel, fb: Option<FrameBuffer>, hhdm: nat)
    requires BootLayout(m, k, fb, hhdm)
    ensures Compatible(BootRanges(m, k, fb, hhdm))
  {
    hide BootLayout, Range.Ok, User, HhdmRange, SectionRange, FrameBufferRange;
    var rs := BootRanges(m, k, fb, hhdm);
    forall i | 0 <= i < |rs|
      ensures rs[i].Ok() && !User(rs[i].flags)
    {
      RangeAt(m, k, fb, hhdm, i);
    }
    forall i, j | 0 <= i < |rs| && 0 <= j < |rs|
      ensures Disjoint(rs[i], rs[j]) || rs[i] == rs[j]
    {
      if i < j {
        PairCompatible(m, k, fb, hhdm, i, j);
      } else if j < i {
        PairCompatible(m, k, fb, hhdm, j, i);
      }
    }
  }

  // Every boot range is well formed; those of the memory map and of the framebuffer
  // lie below the kernel's, with their higher-half offset.
  lemma RangeAt(m: MemMap, k: Kernel, fb: Option<FrameBuffer>, hhdm: nat, i: nat)
    requires BootLayout(m, k, fb, hhdm) && i < |BootRanges(m, k, fb, hhdm)|
    ensures var r := BootRanges(m, k, fb, hhdm)[i];
      && r.Ok() && !User(r.flags)
      && (i < |m| ==> r == Range(hhdm + m[i].base, hhdm + m[i].End(), m[i].base, RW) && r.end <= KERNEL_BASE)
      && (|m| <= i < |m| + 4 ==> r == KernelRanges(k)[i - |m|] && KERNEL_BASE <= r.virt)
      && (|m| + 4 <= i ==> fb.Some? && FrameBufferLayout(m, fb.value, hhdm) && r.end <= KERNEL_BASE)
      && (|m| + 4 <= i ==> r == AlignedFrameBuffer(fb.value, hhdm))
  {
    hide Range.Ok, User, FlagsOk, HhdmRange, SectionRange, FrameBufferRange, PageUp, PageDown;
    FlagFacts();
    if i < |m| {
      HhdmRangeIs(m[i], hhdm);
    } else if i < |m| + 4 {
      KernelRangesOrdered(k);
    } else {
      FrameBufferRangeIs(fb.value, hhdm);
    }
  }

  lemma PairCompatible(m: MemMap, k: Kernel, fb: Option<FrameBuffer>, hhdm: nat, i: nat, j: nat)
    requires BootLayout(m, k, fb, hhdm) && i < j < |BootRanges(m, k, fb, hhdm)|
    ensures var a, b := BootRanges(m, k, fb, hhdm)[i], BootRanges(m, k, fb, hhdm)[j];
      Disjoint(a, b) || a == b
  {
    hide Range.Ok, User, FlagsOk, BootRanges, PageUp, PageDown, KernelRanges, KernelLayout;
    RangeAt(m, k, fb, hhdm, i);
    RangeAt(m, k, fb, hhdm, j);
    if |m| <= i && j < |m| + 4 {
      KernelRangesOrdered(k);
    }
  }

  lemma KernelRangesOrdered(k: Kernel)
    requires KernelLayout(k)
    ensures |KernelRanges(k)| == 4
    ensures forall i :: 0 <= i < 4 ==> KernelRanges(k)[i].Ok() && KernelRanges(k)[i].virt >= KERNEL_BASE
    ensures forall i :: 0 <= i < 4 ==> !User(KernelRanges(k)[i].flags)
    ensures forall i, j :: 0 <= i < j < 4 ==> KernelRanges(k)[i].end <= KernelRanges(k)[j].virt
  {
    hide Range.Ok, User, FlagsOk, SectionRange;
    FlagFacts();
    PagesOf(k.requests);
    PagesOf(k.text);
    PagesOf(k.rodata);
    PagesOf(k.data);
    hide PageUp, PageDown;
    SectionRangeIs(k, k.requests, RO_DATA);
    SectionRangeIs(k, k.text, RX);
    SectionRangeIs(k, k.rodata, RO_DATA);
    SectionRangeIs(k, k.data, RW_DATA);
  }

  lemma PagesOf(s: Section)
    requires s.start <= s.end
    ensures PageDown(s.start) <= PageUp(s.end)
  {
  }

  // The tables an address lacks after the ranges rs were mapped into an empty address
  // space: those it shares with none of them.
  function LackAfter(rs: seq<Range>, v: nat): (n: nat)
    ensures n <= 3
  {
    if rs == [] then 3
    else var last := rs[|rs| - 1]; Min(LackAfter(rs[..|rs| - 1], v), Touched(last.virt, last.end, v))
  }

  function LackOf(rs: seq<Range>): nat -> nat {
    (v: nat) => LackAfter(rs, v)
  }

  // The tables that mapping the ranges rs into an empty address space takes.
  function BootFrames(rs: seq<Range>): nat {
    if rs == [] then 0
    else BootFrames(rs[..|rs| - 1]) + RangeFrames(LackOf(rs[..|rs| - 1]), rs[|rs| - 1])
  }

  ghost predicate LacksAs(mem: Memory, root: nat, rs: seq<Range>) {
    forall v: nat :: Canonical(v) ==> Missing(mem, root, v) == LackAfter(rs, v)
  }

  lemma NextFramesAre(rs: seq<Range>, r: Range)
    ensures BootFrames(rs + [r]) == BootFrames(rs) + RangeFrames(LackOf(rs), r)
    ensures forall v: nat :: LackAfter(rs + [r], v) == Min(LackAfter(rs, v), Touched(r.virt, r.end, v))
  {
    var all := rs + [r];
    assert all[..|all| - 1] == rs;
  }

  lemma {:induction false} FramesGrow(rs: seq<Range>, i: nat)
    requires i <= |rs|
    ensures BootFrames(rs[..i]) <= BootFrames(rs)
  {
    if i < |rs| {
      var rest := rs[..|rs| - 1];
      FramesGrow(rest, i);
      assert rest[..i] == rs[..i];
    } else {
      assert rs[..i] == rs;
    }
  }

  // Only what the range's own addresses lack counts.
  lemma {:induction false} FramesAgree(f: nat -> nat, g: nat -> nat, r: Range, virt: nat)
    requires r.virt <= virt && forall v: nat :: r.virt <= v < r.end ==> f(v) == g(v)
    ensures FramesFrom(f, r, virt) == FramesFrom(g, r, virt)
    decreases r.end - virt
  {
    hide Touched, LargeStep;
    if virt < r.end {
      FramesAgree(f, g, r, virt + if LargeStep(r, virt) then LARGE_PAGE_SIZE else 4096);
    }
  }

  lemma RangeTakes(mem: Memory, root: nat, done: seq<Range>, r: Range)
    requires r.Ok() && LacksAs(mem, root, done)
    ensures RangeFrames(Lacking(mem, root), r) == RangeFrames(LackOf(done), r)
  {
    hide Missing, LackAfter, FramesFrom, Range.Ok, Canonical;
    forall v: nat | r.virt <= v < r.end
      ensures Lacking(mem, root)(v) == LackOf(done)(v)
    {
      RangeIsCanonical(r, v);
    }
    FramesAgree(Lacking(mem, root), LackOf(done), r, r.virt);
    RangeFramesIs(Lacking(mem, root), r);
    RangeFramesIs(LackOf(done), r);
  }

  lemma RangeFramesIs(f: nat -> nat, r: Range)
    ensures RangeFrames(f, r) == FramesFrom(f, r, r.virt)
  {
  }

  lemma LacksAfterRange(mem0: Memory, mem: Memory, root: nat, done: seq<Range>, r: Range)
    requires LacksAs(mem0, root, done) && LackingAfter(Lacking(mem0, root), mem, root, r.virt, r.end)
    ensures LacksAs(mem, root, done + [r])
  {
    hide Missing, LackAfter, Touched, Canonical;
    NextFramesAre(done, r);
    forall v: nat | Canonical(v)
      ensures Missing(mem, root, v) == LackAfter(done + [r], v)
    {
      assert Missing(mem, root, v) == Min(Lacking(mem0, root)(v), Touched(r.virt, r.end, v));
    }
  }

  // One vmm_map_range call of the boot sequence, after the ranges done.
  method MapBootRange(vm: Vmm, virt: nat, phys: nat, length: nat, flags: nat, ghost done: seq<Range>) returns (ok: bool)
    requires vm.Valid() && vm.Rooted() && ExactlyMapped(vm.mem, vm.root, done) && LacksAs(vm.mem, vm.root, done)
    requires Compatible(done + [Range(virt, virt + length, phys, flags)])
    modifies vm`mem, vm`owner, vm.pmm`lastFreeIndex, vm.pmm.bitmap
    ensures vm.Valid() && vm.Rooted() && AddsTables(old(vm.owner), vm.owner)
    ensures ok ==> ExactlyMapped(vm.mem, vm.root, done + [Range(virt, virt + length, phys, flags)])
    ensures !ok ==> AllUsed(vm.pmm.Used())
    ensures var rs := done + [Range(virt, virt + length, phys, flags)];
      && (ok <==> old(vm.Free()) + BootFrames(done) >= BootFrames(rs))
      && (ok ==> vm.Free() + BootFrames(rs) == old(vm.Free()) + BootFrames(done) && LacksAs(vm.mem, vm.root, rs))
  {
    hide *;
    ghost var r := Range(virt, virt + length, phys, flags);
    ghost var m0 := vm.mem;
    LastIsOk(done, r);
    NextRangeIsClear(vm.mem, vm.root, done, r);
    RangeTakes(m0, vm.root, done, r);
    NextFramesAre(done, r);
    ok := MapRange(vm, virt, phys, length, flags);
    if ok {
      NextRangeMapped(m0, vm.mem, vm.root, done, r);
      LacksAfterRange(m0, vm.mem, vm.root, done, r);
    }
  }

  lemma LastIsOk(rs: seq<Range>, r: Range)
    requires Compatible(rs + [r])
    ensures r.Ok() && r.virt <= r.end
  {
    var all := rs + [r];
    assert all[|rs|] == r;
    assert all[|rs|].Ok();
  }

  lemma CompatiblePrefix(rs: seq<Range>, n: nat)
    requires Compatible(rs) && n <= |rs|
    ensures Compatible(rs[..n])
    ensures n < |rs| ==> rs[..n] + [rs[n]] == rs[..n + 1]
  {
  }

  // The arguments each boot step passes are those of its range.
  lemma StepArguments(m: MemMap, k: Kernel, fb: Option<FrameBuffer>, hhdm: nat, n: nat)
    requires BootLayout(m, k, fb, hhdm) && n < |BootRanges(m, k, fb, hhdm)|
    ensures var rs := BootRanges(m, k, fb, hhdm);
      && Compatible(rs[..n + 1]) && rs[..n] + [rs[n]] == rs[..n + 1] && rs[n].virt <= rs[n].end
  {
    LayoutIsCompatible(m, k, fb, hhdm);
    CompatiblePrefix(BootRanges(m, k, fb, hhdm), n);
    CompatiblePrefix(BootRanges(m, k, fb, hhdm), n + 1);
    assert BootRanges(m, k, fb, hhdm)[n].Ok();
  }

  method MapHhdm(vm: Vmm, m: MemMap, k: Kernel, fb: Option<FrameBuffer>, hhdm: nat) returns (r: Outcome<()>)
    requires vm.Valid() && vm.Rooted() && BootLayout(m, k, fb, hhdm)
    requires ExactlyMapped(vm.mem, vm.root, []) && LacksAs(vm.mem, vm.root, [])
    modifies vm`mem, vm`owner, vm.pmm`lastFreeIndex, vm.pmm.bitmap
    ensures vm.Valid() && vm.Rooted() && AddsTables(old(vm.owner), vm.owner)
    ensures r.Returned? ==> ExactlyMapped(vm.mem, vm.root, BootRanges(m, k, fb, hhdm)[..|m|])
    ensures r.Panic? ==> AllUsed(vm.pmm.Used())
    ensures var rs := BootRanges(m, k, fb, hhdm)[..|m|];
      && (r.Returned? <==> old(vm.Free()) >= BootFrames(rs))
      && (r.Returned? ==> vm.Free() + BootFrames(rs) == old(vm.Free()) && LacksAs(vm.mem, vm.root, rs))
  {
    hide ExactlyMapped, Compatible, BootLayout, Range.Ok, AllUsed, AddsTables, Vmm.Valid, Vmm.Rooted, BootFrames, LacksAs, Vmm.Free;
    ghost var rs := BootRanges(m, k, fb, hhdm);
    NothingChanges(vm.mem, vm.owner, vm.root, true);
    NoFrames();
    PoolParts(vm);
    for i := 0 to |m|
      invariant vm.Valid() && vm.Rooted() && AddsTables(old(vm.owner), vm.owner)
      invariant ExactlyMapped(vm.mem, vm.root, rs[..i]) && LacksAs(vm.mem, vm.root, rs[..i])
      invariant vm.pmm.Valid() && vm.Free() + BootFrames(rs[..i]) == old(vm.Free())
    {
      FramesUpTo(rs, i + 1, |m|);
      ghost var owner1 := vm.owner;
      StepArguments(m, k, fb, hhdm, i);
      assert rs[i] == HhdmRange(m[i], hhdm);
      var physStart := PageDown(m[i].base);
      var physEnd := PageUp(m[i].End());
      var ok := MapBootRange(vm, hhdm + physStart, physStart, physEnd - physStart, RW, rs[..i]);
      AddsTablesCompose(old(vm.owner), owner1, vm.owner);
      PoolParts(vm);
      if !ok { return Panic; }
    }
    return Returned(());
  }

  method MapSection(vm: Vmm, k: Kernel, s: Section, flags: nat, ghost done: seq<Range>) returns (r: Outcome<()>)
    requires vm.Valid() && vm.Rooted() && ExactlyMapped(vm.mem, vm.root, done) && LacksAs(vm.mem, vm.root, done)
    requires k.virtualBase <= PageDown(s.start) <= PageUp(s.end)
    requires Compatible(done + [SectionRange(k, s, flags)])
    modifies vm`mem, vm`owner, vm.pmm`lastFreeIndex, vm.pmm.bitmap
    ensures vm.Valid() && vm.Rooted() && AddsTables(old(vm.owner), vm.owner)
    ensures r.Returned? ==> ExactlyMapped(vm.mem, vm.root, done + [SectionRange(k, s, flags)])
    ensures r.Panic? ==> AllUsed(vm.pmm.Used())
    ensures var rs := done + [SectionRange(k, s, flags)];
      && (r.Returned? <==> old(vm.Free()) + BootFrames(done) >= BootFrames(rs))
      && (r.Returned? ==> vm.Free() + BootFrames(rs) == old(vm.Free()) + BootFrames(done) && LacksAs(vm.mem, vm.root, rs))
  {
    hide BootFrames, LacksAs, Vmm.Free, ExactlyMapped, Compatible, AllUsed, AddsTables, Vmm.Valid, Vmm.Rooted, PageUp, PageDown;
    var virtStart := PageDown(s.start);
    var virtEnd := PageUp(s.end);
    var physStart := k.physicalBase + (virtStart - k.virtualBase);
    var ok := MapBootRange(vm, virtStart, physStart, virtEnd - virtStart, flags, done);
    return if ok then Returned(()) else Panic;
  }

  lemma SectionArguments(k: Kernel)
    requires KernelLayout(k)
    ensures k.virtualBase <= PageDown(k.requests.start) <= PageUp(k.requests.end)
    ensures k.virtualBase <= PageDown(k.text.start) <= PageUp(k.text.end)
    ensures k.virtualBase <= PageDown(k.rodata.start) <= PageUp(k.rodata.end)
    ensures k.virtualBase <= PageDown(k.data.start) <= PageUp(k.data.end)
  {
    PagesOf(k.requests);
    PagesOf(k.text);
    PagesOf(k.rodata);
    PagesOf(k.data);
    hide PageUp, PageDown;
  }

  method MapKernel(vm: Vmm, m: MemMap, k: Kernel, fb: Option<FrameBuffer>, hhdm: nat) returns (r: Outcome<()>)
    requires vm.Valid() && vm.Rooted() && BootLayout(m, k, fb, hhdm)
    requires ExactlyMapped(vm.mem, vm.root, BootRanges(m, k, fb, hhdm)[..|m|])
    requires LacksAs(vm.mem, vm.root, BootRanges(m, k, fb, hhdm)[..|m|])
    modifies vm`mem, vm`owner, vm.pmm`lastFreeIndex, vm.pmm.bitmap
    ensures vm.Valid() && vm.Rooted() && AddsTables(old(vm.owner), vm.owner)
    ensures r.Returned? ==> ExactlyMapped(vm.mem, vm.root, BootRanges(m, k, fb, hhdm)[..|m| + 4])
    ensures r.Panic? ==> AllUsed(vm.pmm.Used())
    ensures var before, rs := BootRanges(m, k, fb, hhdm)[..|m|], BootRanges(m, k, fb, hhdm)[..|m| + 4];
      && (r.Returned? <==> old(vm.Free()) + BootFrames(before) >= BootFrames(rs))
      && (r.Returned? ==> vm.Free() + BootFrames(rs) == old(vm.Free()) + BootFrames(before) && LacksAs(vm.mem, vm.root, rs))
  {
    hide BootFrames, LacksAs, Vmm.Free, ExactlyMapped, Compatible, AllUsed, AddsTables, Vmm.Valid, Vmm.Rooted, PageUp, PageDown, SectionRange,
      Range.Ok, HhdmRanges, MapLayout, KernelLayout, FrameBufferLayout, FrameBufferRange;
    ghost var rs, n := BootRanges(m, k, fb, hhdm), |m|;
    SectionArguments(k);
    StepArguments(m, k, fb, hhdm, n);
    StepArguments(m, k, fb, hhdm, n + 1);
    StepArguments(m, k, fb, hhdm, n + 2);
    StepArguments(m, k, fb, hhdm, n + 3);
    FramesUpTo(rs, n + 1, n + 4);
    FramesUpTo(rs, n + 2, n + 4);
    FramesUpTo(rs, n + 3, n + 4);
    ghost var o0 := vm.owner;
    r := MapSection(vm, k, k.requests, RO_DATA, rs[..n]);
    if r.Panic? { return; }
    ghost var o1 := vm.owner;
    r := MapSection(vm, k, k.text, RX, rs[..n + 1]);
    AddsTablesCompose(o0, o1, vm.owner);
    if r.Panic? { return; }
    ghost var o2 := vm.owner;
    r := MapSection(vm, k, k.rodata, RO_DATA, rs[..n + 2]);
    AddsTablesCompose(o0, o2, vm.owner);
    if r.Panic? { return; }
    ghost var o3 := vm.owner;
    r := MapSection(vm, k, k.data, RW_DATA, rs[..n + 3]);
    AddsTablesCompose(o0, o3, vm.owner);
  }

  method MapFrameBuffer(vm: Vmm, m: MemMap, k: Kernel, fb: Option<FrameBuffer>, hhdm: nat) returns (r: Outcome<()>)
    requires vm.Valid() && vm.Rooted() && BootLayout(m, k, fb, hhdm)
    requires ExactlyMapped(vm.mem, vm.root, BootRanges(m, k, fb, hhdm)[..|m| + 4])
    requires LacksAs(vm.mem, vm.root, BootRanges(m, k, fb, hhdm)[..|m| + 4])
    modifies vm`mem, vm`owner, vm.pmm`lastFreeIndex, vm.pmm.bitmap
    ensures vm.Valid() && vm.Rooted() && AddsTables(old(vm.owner), vm.owner)
    ensures r.Returned? ==> ExactlyMapped(vm.mem, vm.root, BootRanges(m, k, fb, hhdm))
    ensures r.Panic? ==> AllUsed(vm.pmm.Used())
    ensures var before, rs := BootRanges(m, k, fb, hhdm)[..|m| + 4], BootRanges(m, k, fb, hhdm);
      && (r.Returned? <==> old(vm.Free()) + BootFrames(before) >= BootFrames(rs))
      && (r.Returned? ==> vm.Free() + BootFrames(rs) == old(vm.Free()) + BootFrames(before) && LacksAs(vm.mem, vm.root, rs))
  {
    hide BootFrames, LacksAs, Vmm.Free, ExactlyMapped, Compatible, AllUsed, Extends, Vmm.Valid, Vmm.Rooted, PageUp, PageDown,
      Range.Ok, HhdmRanges, MapLayout, KernelLayout, SectionRange;
    ghost var rs, n := BootRanges(m, k, fb, hhdm), |m|;
    if fb.None? {
      assert rs[..n + 4] == rs;
      NothingChanges(vm.mem, vm.owner, vm.root, true);
      return Returned(());
    }
    StepArguments(m, k, fb, hhdm, n + 4);
    assert rs[..n + 5] == rs;
    var fbVirt := fb.value.address;
    var fbPhys := fbVirt - hhdm;
    var virtStart := PageDown(fbVirt);
    var virtEnd := PageUp(fbVirt + fb.value.size);
    var physStart := PageDown(fbPhys);
    assert rs[n + 4] == Range(virtStart, virtEnd, physStart, RW);
    var ok := MapBootRange(vm, virtStart, physStart, virtEnd - virtStart, RW, rs[..n + 4]);
    return if ok then Returned(()) else Panic;
  }

  // A fresh, zeroed top-level table translates nothing.
  lemma EmptyAddressSpace(mem: Memory, owner: map<nat, Owner>, f: nat)
    requires WellFormed(mem, owner) && forall t :: t in owner ==> !owner[t].TableAt?
    ensures WellFormed(mem[f := EmptyTable()], owner[f := TableAt(4, 0)])
    ensures ExactlyMapped(mem[f := EmptyTable()], f, []) && LacksAs(mem[f := EmptyTable()], f, [])
  {
    var mem' := mem[f := EmptyTable()];
    forall v: nat | Canonical(v)
      ensures Missing(mem', f, v) == 3
    {
      assert mem'[f][Index(4, v)] == 0;
    }
    forall v: nat | Canonical(v)
      ensures AddressMapped(mem', f, [], v)
    {
      assert mem'[f][Index(4, v)] == 0;
    }
  }

  lemma NoFrames()
    ensures BootFrames([]) == 0
  {
  }

  lemma FramesUpTo(rs: seq<Range>, i: nat, n: nat)
    requires i <= n <= |rs|
    ensures BootFrames(rs[..i]) <= BootFrames(rs[..n])
    ensures n == |rs| ==> rs[..n] == rs
  {
    FramesGrow(rs[..n], i);
    assert rs[..n][..i] == rs[..i];
  }

  lemma RangesAre(m: MemMap, k: Kernel, fb: Option<FrameBuffer>, hhdm: nat)
    ensures |m| + 4 <= |BootRanges(m, k, fb, hhdm)| <= |m| + 5
  {
  }

  method Init(vm: Vmm, m: MemMap, k: Kernel, fb: Option<FrameBuffer>, hhdm: nat) returns (r: Outcome<bool>)
    requires vm.Valid() && BootLayout(m, k, fb, hhdm)
    requires forall t :: t in vm.owner ==> !vm.owner[t].TableAt?
    modifies vm, vm.pmm`lastFreeIndex, vm.pmm.bitmap
    ensures vm.Valid() && AddsTables(old(vm.owner), vm.owner)
    ensures r == Returned(true) ==> vm.Rooted() && ExactlyMapped(vm.mem, vm.root, BootRanges(m, k, fb, hhdm))
    ensures r != Returned(true) ==> AllUsed(vm.pmm.Used())
    ensures r == Returned(true) <==> old(vm.Free()) >= 1 + BootFrames(BootRanges(m, k, fb, hhdm))
    ensures r == Returned(false) <==> old(vm.Free()) == 0
    ensures r == Returned(true) ==> vm.Free() + 1 + BootFrames(BootRanges(m, k, fb, hhdm)) == old(vm.Free())
  {
    hide ExactlyMapped, BootLayout, AllUsed, WellFormed, OwnsUsed, BootRanges, BootFrames, LacksAs, FreeCount;
    ghost var rs := BootRanges(m, k, fb, hhdm);
    RangesAre(m, k, fb, hhdm);
    FramesUpTo(rs, |m|, |rs|);
    FramesUpTo(rs, |m| + 4, |rs|);
    ghost var o0, m0 := vm.owner, vm.mem;
    NothingChanges(m0, o0, vm.root, true);
    var addr := vm.TakePage(TableAt(4, 0));
    if addr == 0 { return Returned(false); }
    EmptyAddressSpace(m0, o0, addr / 4096);
    vm.mem := vm.mem[addr / 4096 := EmptyTable()];
    vm.owner := vm.owner[addr / 4096 := TableAt(4, 0)];
    vm.root := addr / 4096;
    hide AddsTables, Vmm.PoolOwned;
    ghost var o1 := vm.owner;
    var step := MapHhdm(vm, m, k, fb, hhdm);
    AddsTablesCompose(o0, o1, vm.owner);
    if step.Panic? { return Panic; }
    ghost var o2 := vm.owner;
    step := MapKernel(vm, m, k, fb, hhdm);
    AddsTablesCompose(o0, o2, vm.owner);
    if step.Panic? { return Panic; }
    ghost var o3 := vm.owner;
    step := MapFrameBuffer(vm, m, k, fb, hhdm);
    AddsTablesCompose(o0, o3, vm.owner);
    if step.Panic? { return Panic; }
    return Returned(true);
  }

  lemma BootRangeMapped(mem: Memory, root: nat, m: MemMap, k: Kernel, fb: Option<FrameBuffer>, hhdm: nat, i: nat, v: nat)
    requires BootLayout(m, k, fb, hhdm) && ExactlyMapped(mem, root, BootRanges(m, k, fb, hhdm))
    requires i < |BootRanges(m, k, fb, hhdm)| && BootRanges(m, k, fb, hhdm)[i].Covers(v)
    ensures var r, w := BootRanges(m, k, fb, hhdm)[i], Translate(mem, root, v);
      && w.Hit? && w.Target(v) == r.Phys(v)
      && w.Rights() == Perm(Writable(r.flags), false, NoExecute(r.flags))
  {
    hide BootLayout, BootRanges, Translate, Range.Ok, User;
    RangeAt(m, k, fb, hhdm, i);
    RangeIsCanonical(BootRanges(m, k, fb, hhdm)[i], v);
    assert AddressMapped(mem, root, BootRanges(m, k, fb, hhdm), v);
  }

  // Every byte of every memory map entry is reachable at its higher-half address,
  // readable, writable and executable there, and only for the kernel.
  lemma HhdmIsIdentity(mem: Memory, root: nat, m: MemMap, k: Kernel, fb: Option<FrameBuffer>, hhdm: nat, i: nat, p: nat)
    requires BootLayout(m, k, fb, hhdm) && ExactlyMapped(mem, root, BootRanges(m, k, fb, hhdm))
    requires i < |m| && m[i].base <= p < m[i].End()
    ensures var w := Translate(mem, root, hhdm + p);
      w.Hit? && w.Target(hhdm + p) == p && w.Rights() == Perm(true, false, false)
  {
    hide BootLayout, Translate, ExactlyMapped, Bit, HhdmRange;
    FlagFacts();
    RangeAt(m, k, fb, hhdm, i);
    BootRangeMapped(mem, root, m, k, fb, hhdm, i, hhdm + p);
  }

  // Every kernel section address translates to the loaded image, with the section's
  // rights; no section page is both writable and executable at its section address.
  lemma KernelIsMapped(mem: Memory, root: nat, m: MemMap, k: Kernel, fb: Option<FrameBuffer>, hhdm: nat, j: nat, va: nat)
    requires BootLayout(m, k, fb, hhdm) && ExactlyMapped(mem, root, BootRanges(m, k, fb, hhdm))
    requires j < 4
    requires var s := [k.requests, k.text, k.rodata, k.data][j]; PageDown(s.start) <= va < PageUp(s.end)
    ensures var w := Translate(mem, root, va);
      && w.Hit? && va >= k.virtualBase && w.Target(va) == k.physicalBase + (va - k.virtualBase)
      && w.Rights() == Perm(j == 3, false, j != 1)
      && !(w.Rights().w && !w.Rights().nx)
  {
    SectionArguments(k);
    FlagFacts();
    hide BootLayout, Translate, ExactlyMapped, Bit, PageUp, PageDown, HhdmRange;
    var i := |m| + j;
    assert BootRanges(m, k, fb, hhdm)[i] == KernelRanges(k)[j];
    BootRangeMapped(mem, root, m, k, fb, hhdm, i, va);
  }

  lemma FrameBufferIsMapped(mem: Memory, root: nat, m: MemMap, k: Kernel, fb: FrameBuffer, hhdm: nat, va: nat)
    requires BootLayout(m, k, Some(fb), hhdm) && ExactlyMapped(mem, root, BootRanges(m, k, Some(fb), hhdm))
    requires fb.address <= va < fb.address + fb.size
    ensures var w := Translate(mem, root, va);
      w.Hit? && w.Target(va) == va - hhdm && w.Rights() == Perm(true, false, false)
  {
    FlagFacts();
    InsidePages(va, fb.address, fb.address + fb.size);
    FrameBufferPhys(fb, hhdm, va);
    hide MapLayout, KernelLayout, Translate, ExactlyMapped, Bit, PageUp, PageDown, HhdmRange, SectionRange;
    var rs, i := BootRanges(m, k, Some(fb), hhdm), |m| + 4;
    RangeAt(m, k, Some(fb), hhdm, i);
    BootRangeMapped(mem, root, m, k, Some(fb), hhdm, i, va);
  }

  lemma InsidePages(va: nat, start: nat, end: nat)
    requires start <= va < end
    ensures PageDown(start) <= va < PageUp(end)
  {
  }

  lemma FrameBufferPhys(fb: FrameBuffer, hhdm: nat, va: nat)
    requires hhdm <= fb.address <= va
    ensures hhdm % 4096 == 0 ==> hhdm + PageDown(fb.address - hhdm) == PageDown(fb.address)
    ensures hhdm + PageDown(fb.address - hhdm) <= va
  {
  }

  // An address is mapped exactly when some boot range covers it.
  lemma MappedIffCovered(mem: Memory, root: nat, m: MemMap, k: Kernel, fb: Option<FrameBuffer>, hhdm: nat, v: nat)
    requires ExactlyMapped(mem, root, BootRanges(m, k, fb, hhdm)) && Canonical(v)
    ensures Translate(mem, root, v).Hit? <==>
      exists i :: 0 <= i < |BootRanges(m, k, fb, hhdm)| && BootRanges(m, k, fb, hhdm)[i].Covers(v)
  {
    assert AddressMapped(mem, root, BootRanges(m, k, fb, hhdm), v);
  }

  // v is the higher-half address of a byte of some memory map entry.
  ghost predicate InHhdm(m: MemMap, hhdm: nat, v: nat) {
    exists i :: 0 <= i < |m| && hhdm + m[i].base <= v < hhdm + m[i].End()
  }

  predicate InFrameBuffer(fb: Option<FrameBuffer>, v: nat) {
    fb.Some? && PageDown(fb.value.address) <= v < PageUp(fb.value.address + fb.value.size)
  }

  // An address is both writable and executable exactly when it is the higher-half
  // address of a memory map entry or lies in the framebuffer's pages.
  lemma WritableAndExecutable(mem: Memory, root: nat, m: MemMap, k: Kernel, fb: Option<FrameBuffer>, hhdm: nat, v: nat)
    requires BootLayout(m, k, fb, hhdm) && ExactlyMapped(mem, root, BootRanges(m, k, fb, hhdm)) && Canonical(v)
    ensures var w := Translate(mem, root, v);
      (w.Hit? && w.Rights().w && !w.Rights().nx) <==> InHhdm(m, hhdm, v) || InFrameBuffer(fb, v)
  {
    hide *;
    FlagFacts();
    MappedIffCovered(mem, root, m, k, fb, hhdm, v);
    var rs, w := BootRanges(m, k, fb, hhdm), Translate(mem, root, v);
    if w.Hit? {
      var i :| 0 <= i < |rs| && rs[i].Covers(v);
      BootRangeMapped(mem, root, m, k, fb, hhdm, i, v);
      RangeKind(m, k, fb, hhdm, i, v);
      if InHhdm(m, hhdm, v) || InFrameBuffer(fb, v) {
        var j := DirectRange(m, k, fb, hhdm, v);
        BootRangeMapped(mem, root, m, k, fb, hhdm, j, v);
      }
    } else if InHhdm(m, hhdm, v) || InFrameBuffer(fb, v) {
      var j := DirectRange(m, k, fb, hhdm, v);
    }
  }

  // Only the direct map and the framebuffer ask for pages both writable and executable.
  lemma RangeKind(m: MemMap, k: Kernel, fb: Option<FrameBuffer>, hhdm: nat, i: nat, v: nat)
    requires BootLayout(m, k, fb, hhdm) && i < |BootRanges(m, k, fb, hhdm)| && BootRanges(m, k, fb, hhdm)[i].Covers(v)
    ensures var r := BootRanges(m, k, fb, hhdm)[i];
      Writable(r.flags) && !NoExecute(r.flags) ==> InHhdm(m, hhdm, v) || InFrameBuffer(fb, v)
  {
    FlagFacts();
    RangeAt(m, k, fb, hhdm, i);
    hide BootLayout, Bit, PageUp, PageDown, HhdmRange, Range.Ok, MapLayout, KernelLayout;
    if |m| + 4 <= i {
      FrameBufferRangeAt(m, k, fb, hhdm);
    }
  }

  lemma FrameBufferRangeAt(m: MemMap, k: Kernel, fb: Option<FrameBuffer>, hhdm: nat)
    requires BootLayout(m, k, fb, hhdm) && fb.Some?
    ensures |BootRanges(m, k, fb, hhdm)| == |m| + 5
    ensures var r := BootRanges(m, k, fb, hhdm)[|m| + 4];
      r.virt == PageDown(fb.value.address) && r.end == PageUp(fb.value.address + fb.value.size) && r.flags == RW
  {
    hide BootLayout, PageUp, PageDown, HhdmRange, SectionRange;
  }

  // The range that maps an address of the direct map or of the framebuffer.
  lemma DirectRange(m: MemMap, k: Kernel, fb: Option<FrameBuffer>, hhdm: nat, v: nat) returns (j: nat)
    requires BootLayout(m, k, fb, hhdm) && (InHhdm(m, hhdm, v) || InFrameBuffer(fb, v))
    ensures j < |BootRanges(m, k, fb, hhdm)| && BootRanges(m, k, fb, hhdm)[j].Covers(v)
    ensures BootRanges(m, k, fb, hhdm)[j].flags == RW
  {
    hide BootLayout, PageUp, PageDown, HhdmRange, Range.Ok;
    if InHhdm(m, hhdm, v) {
      j :| 0 <= j < |m| && hhdm + m[j].base <= v < hhdm + m[j].End();
      RangeAt(m, k, fb, hhdm, j);
    } else {
      j := |m| + 4;
      FrameBufferRangeAt(m, k, fb, hhdm);
    }
  }

  // The kernel's text has a writable alias: where the memory map has an entry holding
  // the text's physical page, as it has for the kernel image, the page's higher-half
  // address translates to the same physical address, writable and executable.
  lemma TextIsWritableThroughAlias(mem: Memory, root: nat, m: MemMap, k: Kernel, fb: Option<FrameBuffer>, hhdm: nat,
                                   i: nat, va: nat)
    requires BootLayout(m, k, fb, hhdm) && ExactlyMapped(mem, root, BootRanges(m, k, fb, hhdm))
    requires PageDown(k.text.start) <= va < PageUp(k.text.end) && k.virtualBase <= va
    requires i < |m| && m[i].base <= k.physicalBase + (va - k.virtualBase) < m[i].End()
    ensures var alias := hhdm + k.physicalBase + (va - k.virtualBase);
      var text, data := Translate(mem, root, va), Translate(mem, root, alias);
      && text.Hit? && data.Hit? && data.Target(alias) == text.Target(va)
      && text.Rights() == Perm(false, false, false) && data.Rights() == Perm(true, false, false)
  {
    hide *;
    KernelIsMapped(mem, root, m, k, fb, hhdm, 1, va);
    HhdmIsIdentity(mem, root, m, k, fb, hhdm, i, k.physicalBase + (va - k.virtualBase));
  }

  // An address lies under a 2 MiB page exactly when some boot range maps its block by
  // one; where it does, vmm_map_page must not be asked for its page.
  lemma LargeIffBlock(mem: Memory, root: nat, m: MemMap, k: Kernel, fb: Option<FrameBuffer>, hhdm: nat, v: nat)
    requires ExactlyMapped(mem, root, BootRanges(m, k, fb, hhdm)) && Canonical(v)
    ensures Translate(mem, root, v).IsLarge() <==>
      exists i :: 0 <= i < |BootRanges(m, k, fb, hhdm)| && BootRanges(m, k, fb, hhdm)[i].Covers(v)
        && BootRanges(m, k, fb, hhdm)[i].LargeBlock(v)
  {
    hide BootRanges, Translate, Range.LargeBlock;
    assert AddressMapped(mem, root, BootRanges(m, k, fb, hhdm), v);
  }

  // The entry's higher-half pages fill the 2 MiB block of v, and the physical block is
  // aligned as well.
  predicate HoldsBlock(e: MemEntry, hhdm: nat, v: nat) {
    var b := v / LARGE_PAGE_SIZE * LARGE_PAGE_SIZE;
    hhdm + e.base <= b && b + LARGE_PAGE_SIZE <= hhdm + e.End() && (b - hhdm) % LARGE_PAGE_SIZE == 0
  }

  // The framebuffer's pages as an entry.
  function FrameBufferPages(fb: FrameBuffer, hhdm: nat): MemEntry
    requires hhdm <= fb.address
  {
    var start := PageDown(fb.address - hhdm);
    var end := PageUp(fb.address + fb.size);
    MemEntry(start, if hhdm + start <= end then end - hhdm - start else 0, Framebuffer)
  }

  ghost predicate InLargeBlock(m: MemMap, fb: Option<FrameBuffer>, hhdm: nat, v: nat) {
    || (exists i :: 0 <= i < |m| && HoldsBlock(m[i], hhdm, v))
    || (fb.Some? && hhdm <= fb.value.address && HoldsBlock(FrameBufferPages(fb.value, hhdm), hhdm, v))
  }

  // What vmm_map_page demands of the device pages that lapic_init and
  // ioapic_init_keyboard map at their higher-half addresses after boot holds exactly when
  // no entry and no framebuffer fills the 2 MiB block around them.
  lemma DevicePageIsReady(mem: Memory, root: nat, m: MemMap, k: Kernel, fb: Option<FrameBuffer>, hhdm: nat, v: nat)
    requires BootLayout(m, k, fb, hhdm) && ExactlyMapped(mem, root, BootRanges(m, k, fb, hhdm))
    requires hhdm <= v < KERNEL_BASE
    ensures !Translate(mem, root, v).IsLarge() <==> !InLargeBlock(m, fb, hhdm, v)
  {
    hide *;
    LowIsCanonical(m, k, fb, hhdm, v);
    LargeIffBlock(mem, root, m, k, fb, hhdm, v);
    var rs := BootRanges(m, k, fb, hhdm);
    if Translate(mem, root, v).IsLarge() {
      var i :| 0 <= i < |rs| && rs[i].Covers(v) && rs[i].LargeBlock(v);
      RangeHoldsBlock(m, k, fb, hhdm, i, v);
    }
    if InLargeBlock(m, fb, hhdm, v) {
      var i := BlockHasRange(m, k, fb, hhdm, v);
    }
  }

  lemma LowIsCanonical(m: MemMap, k: Kernel, fb: Option<FrameBuffer>, hhdm: nat, v: nat)
    requires BootLayout(m, k, fb, hhdm) && hhdm <= v < KERNEL_BASE
    ensures Canonical(v)
  {
  }

  lemma RangeHoldsBlock(m: MemMap, k: Kernel, fb: Option<FrameBuffer>, hhdm: nat, i: nat, v: nat)
    requires BootLayout(m, k, fb, hhdm) && v < KERNEL_BASE
    requires i < |BootRanges(m, k, fb, hhdm)| && BootRanges(m, k, fb, hhdm)[i].Covers(v)
    requires BootRanges(m, k, fb, hhdm)[i].LargeBlock(v)
    ensures InLargeBlock(m, fb, hhdm, v)
  {
    RangeAt(m, k, fb, hhdm, i);
    hide BootLayout, PageUp, PageDown, HhdmRange, Range.Ok, KernelRanges, BootRanges, Bit;
    if i < |m| {
      EntryBlock(m[i], hhdm, v);
    } else {
      FrameBufferBlock(m, fb.value, hhdm, v);
    }
  }

  lemma BlockHasRange(m: MemMap, k: Kernel, fb: Option<FrameBuffer>, hhdm: nat, v: nat) returns (i: nat)
    requires BootLayout(m, k, fb, hhdm) && InLargeBlock(m, fb, hhdm, v)
    ensures i < |BootRanges(m, k, fb, hhdm)|
    ensures BootRanges(m, k, fb, hhdm)[i].Covers(v) && BootRanges(m, k, fb, hhdm)[i].LargeBlock(v)
  {
    hide *;
    if exists j :: 0 <= j < |m| && HoldsBlock(m[j], hhdm, v) {
      i :| 0 <= i < |m| && HoldsBlock(m[i], hhdm, v);
      EntryHasRange(m, k, fb, hhdm, i, v);
    } else {
      i := |m| + 4;
      FrameBufferHasRange(m, k, fb, hhdm, v);
    }
  }

  lemma EntryHasRange(m: MemMap, k: Kernel, fb: Option<FrameBuffer>, hhdm: nat, i: nat, v: nat)
    requires BootLayout(m, k, fb, hhdm) && i < |m| && HoldsBlock(m[i], hhdm, v)
    ensures i < |BootRanges(m, k, fb, hhdm)|
    ensures BootRanges(m, k, fb, hhdm)[i].Covers(v) && BootRanges(m, k, fb, hhdm)[i].LargeBlock(v)
  {
    RangeAt(m, k, fb, hhdm, i);
    hide BootLayout, BootRanges, HoldsBlock, Range.Ok, Range.LargeBlock, Range.Covers, KernelRanges;
    EntryBlock(m[i], hhdm, v);
  }

  lemma FrameBufferHasRange(m: MemMap, k: Kernel, fb: Option<FrameBuffer>, hhdm: nat, v: nat)
    requires BootLayout(m, k, fb, hhdm) && InLargeBlock(m, fb, hhdm, v)
    requires !exists j :: 0 <= j < |m| && HoldsBlock(m[j], hhdm, v)
    ensures |m| + 4 < |BootRanges(m, k, fb, hhdm)|
    ensures var r := BootRanges(m, k, fb, hhdm)[|m| + 4]; r.Covers(v) && r.LargeBlock(v)
  {
    FrameBufferRangeAt(m, k, fb, hhdm);
    RangeAt(m, k, fb, hhdm, |m| + 4);
    hide BootLayout, BootRanges, HoldsBlock, Range.Ok, Range.LargeBlock, Range.Covers, KernelRanges;
    FrameBufferBlock(m, fb.value, hhdm, v);
  }

  lemma EntryBlock(e: MemEntry, hhdm: nat, v: nat)
    ensures var r := Range(hhdm + e.base, hhdm + e.End(), e.base, RW); HoldsBlock(e, hhdm, v) <==> r.Covers(v) && r.LargeBlock(v)
  {
    InBlock(v);
  }

  lemma FrameBufferBlock(m: MemMap, fb: FrameBuffer, hhdm: nat, v: nat)
    requires FrameBufferLayout(m, fb, hhdm)
    ensures var r := AlignedFrameBuffer(fb, hhdm); HoldsBlock(FrameBufferPages(fb, hhdm), hhdm, v) <==> r.Covers(v) && r.LargeBlock(v)
  {
    hide PageUp, PageDown;
    InBlock(v);
  }

  lemma InBlock(v: nat)
    ensures var b := v / LARGE_PAGE_SIZE * LARGE_PAGE_SIZE; b <= v < b + LARGE_PAGE_SIZE
  {
  }

  // A reserved entry of 2 MiB over the I/O APIC's registers fills their block.
  lemma IoApicUnderLargePage(rest: MemMap, fb: Option<FrameBuffer>)
    ensures var e := MemEntry(0xFEC0_0000, 0x20_0000, Reserved);
      InLargeBlock([e] + rest, fb, HIGHER_HALF, HIGHER_HALF + 0xFEC0_0000)
  {
    var e := MemEntry(0xFEC0_0000, 0x20_0000, Reserved);
    assert ([e] + rest)[0] == e && HoldsBlock(e, HIGHER_HALF, HIGHER_HALF + 0xFEC0_0000);
  }

  // v lies in a page that reaches into [start, end).
  predicate InPagesOf(v: nat, start: nat, end: nat) {
    start / 4096 <= v / 4096 && v / 4096 * 4096 < end
  }

  lemma PagesMean(v: nat, start: nat, end: nat)
    ensures PageDown(start) <= v < PageUp(end) <==> InPagesOf(v, start, end)
  {
    assert PageUp(end) == (end + 4095) / 4096 * 4096;
    assert PageDown(start) == start / 4096 * 4096;
  }

  // v belongs to the direct map of an entry, to a page of one of the four sections, or
  // to one of the framebuffer.
  ghost predicate InBootSpace(m: MemMap, k: Kernel, fb: Option<FrameBuffer>, hhdm: nat, v: nat) {
    || (exists i :: 0 <= i < |m| && hhdm + m[i].base <= v < hhdm + m[i].base + m[i].length)
    || InPagesOf(v, k.requests.start, k.requests.end) || InPagesOf(v, k.text.start, k.text.end)
    || InPagesOf(v, k.rodata.start, k.rodata.end) || InPagesOf(v, k.data.start, k.data.end)
    || (fb.Some? && InPagesOf(v, fb.value.address, fb.value.address + fb.value.size))
  }

  // Exactly these addresses are mapped.
  lemma MappedMeans(mem: Memory, root: nat, m: MemMap, k: Kernel, fb: Option<FrameBuffer>, hhdm: nat, v: nat)
    requires BootLayout(m, k, fb, hhdm) && ExactlyMapped(mem, root, BootRanges(m, k, fb, hhdm)) && Canonical(v)
    ensures Translate(mem, root, v).Hit? <==> InBootSpace(m, k, fb, hhdm, v)
  {
    hide *;
    MappedIffCovered(mem, root, m, k, fb, hhdm, v);
    FrameBufferCounts(m, k, fb, hhdm);
    var rs := BootRanges(m, k, fb, hhdm);
    if i :| 0 <= i < |rs| && rs[i].Covers(v) {
      RangeMeans(m, k, fb, hhdm, i, v);
      CoveringIsInside(m, k, fb, hhdm, i, v);
    }
    if InBootSpace(m, k, fb, hhdm, v) {
      var i := InsideIsCovered(m, k, fb, hhdm, v);
      RangeMeans(m, k, fb, hhdm, i, v);
    }
  }

  lemma CoveringIsInside(m: MemMap, k: Kernel, fb: Option<FrameBuffer>, hhdm: nat, i: nat, v: nat)
    requires CoversAs(m, k, fb, hhdm, i, v)
    ensures InBootSpace(m, k, fb, hhdm, v)
  {
    hide InPagesOf;
  }

  lemma InsideIsCovered(m: MemMap, k: Kernel, fb: Option<FrameBuffer>, hhdm: nat, v: nat) returns (i: nat)
    requires InBootSpace(m, k, fb, hhdm, v)
    ensures i < |m| + (if fb.Some? then 5 else 4) && CoversAs(m, k, fb, hhdm, i, v)
  {
    hide InPagesOf;
    if exists j :: 0 <= j < |m| && hhdm + m[j].base <= v < hhdm + m[j].base + m[j].length {
      i :| 0 <= i < |m| && hhdm + m[i].base <= v < hhdm + m[i].base + m[i].length;
    } else if InPagesOf(v, k.requests.start, k.requests.end) {
      i := |m|;
    } else if InPagesOf(v, k.text.start, k.text.end) {
      i := |m| + 1;
    } else if InPagesOf(v, k.rodata.start, k.rodata.end) {
      i := |m| + 2;
    } else if InPagesOf(v, k.data.start, k.data.end) {
      i := |m| + 3;
    } else {
      i := |m| + 4;
    }
  }

  lemma FrameBufferCounts(m: MemMap, k: Kernel, fb: Option<FrameBuffer>, hhdm: nat)
    ensures |BootRanges(m, k, fb, hhdm)| == |m| + if fb.Some? then 5 else 4
  {
  }

  predicate CoversAs(m: MemMap, k: Kernel, fb: Option<FrameBuffer>, hhdm: nat, i: nat, v: nat) {
    if i < |m| then hhdm + m[i].base <= v < hhdm + m[i].base + m[i].length
    else if i < |m| + 4 then
      var s := [k.requests, k.text, k.rodata, k.data][i - |m|];
      InPagesOf(v, s.start, s.end)
    else fb.Some? && InPagesOf(v, fb.value.address, fb.value.address + fb.value.size)
  }

  lemma RangeMeans(m: MemMap, k: Kernel, fb: Option<FrameBuffer>, hhdm: nat, i: nat, v: nat)
    requires BootLayout(m, k, fb, hhdm) && i < |BootRanges(m, k, fb, hhdm)|
    ensures BootRanges(m, k, fb, hhdm)[i].Covers(v) <==> CoversAs(m, k, fb, hhdm, i, v)
  {
    RangeAt(m, k, fb, hhdm, i);
    hide BootLayout, PageUp, PageDown, InPagesOf, KernelRanges, BootRanges, Range.Ok, AlignedFrameBuffer, HhdmRange, SectionRange;
    if |m| <= i < |m| + 4 {
      var s := [k.requests, k.text, k.rodata, k.data][i - |m|];
      SectionPages(k, i - |m|);
      PagesMean(v, s.start, s.end);
    } else if |m| + 4 <= i {
      FrameBufferRangeAt(m, k, fb, hhdm);
      FrameBufferCounts(m, k, fb, hhdm);
      PagesMean(v, fb.value.address, fb.value.address + fb.value.size);
    }
  }

  lemma SectionPages(k: Kernel, j: nat)
    requires j < 4
    ensures var s := [k.requests, k.text, k.rodata, k.data][j];
      KernelRanges(k)[j].virt == PageDown(s.start) && KernelRanges(k)[j].end == PageUp(s.end)
  {
    hide PageUp, PageDown;
  }
}
