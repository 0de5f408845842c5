// vmm_map_range of src/kernel/memory/vmm.c: 2 MiB leaves where both addresses are
// aligned, single pages elsewhere, refining the page-by-page mapping.
module Ranges {
  import opened Words
  import opened Pmm
  import opened Paging
  import opened MissingTables
  import opened Vmm

  // A request to map [virt, end) to the physical memory from phys on.
  datatype Range = Range(virt: nat, end: nat, phys: nat, flags: nat) {
    // Page-aligned, without wrap-around, and inside one canonical half.
    predicate Ok() {
      && virt % 4096 == 0 && end % 4096 == 0 && phys % 4096 == 0
      && virt <= end < WORD_LIMIT && phys + (end - virt) <= PHYS_LIMIT
      && (end <= 0x8000_0000_0000 || virt >= 0xFFFF_8000_0000_0000)
      && FlagsOk(flags)
    }

    predicate Covers(v: nat) { virt <= v < end }

    function Phys(v: nat): nat
      requires Covers(v)
    {
      phys + (v - virt)
    }

    // The 2 MiB block of v is mapped by one large leaf: it lies inside the range and
    // both its addresses are aligned.
    predicate LargeBlock(v: nat) {
      var b := v / LARGE_PAGE_SIZE * LARGE_PAGE_SIZE;
      virt <= b && b + LARGE_PAGE_SIZE <= end && (phys + (b - virt)) % LARGE_PAGE_SIZE == 0
    }
  }

  // The walk w of v is the one the range asks for; w0 is the walk before.
  predicate MapsTo(r: Range, v: nat, w0: Walk, w: Walk)
    requires r.Covers(v)
  {
    && w.Hit?
    && w.level == (if r.LargeBlock(v) then 2 else 1)
    && w.Target(v) == r.Phys(v)
    && w.Rights().w == Writable(r.flags)
    && w.Rights().nx == NoExecute(r.flags)
    && w.Rights().u == (User(r.flags) && w0.path.u)
  }

  // Pages of the range below upTo are mapped as asked; no other walk changed.
  ghost predicate MappedUpTo(mem0: Memory, mem: Memory, root: nat, r: Range, upTo: nat)
    requires r.virt <= upTo <= r.end
  {
    forall v: nat :: Canonical(v) ==> PageDone(mem0, mem, root, r, upTo, v)
  }

  ghost predicate PageDone(mem0: Memory, mem: Memory, root: nat, r: Range, upTo: nat, v: nat)
    requires r.virt <= upTo <= r.end
  {
    if r.virt <= v < upTo then MapsTo(r, v, Translate(mem0, root, v), Translate(mem, root, v))
    else SameWalk(Translate(mem0, root, v), Translate(mem, root, v), User(r.flags))
  }

  // No page mapped singly lies under an existing large leaf.
  ghost predicate NoLargeInTheWay(mem: Memory, root: nat, r: Range) {
    forall v: nat :: r.Covers(v) && !r.LargeBlock(v) ==> !Translate(mem, root, v).IsLarge()
  }

  // The address the loop has reached.
  predicate Progress(r: Range, virt: nat) {
    && r.virt <= virt <= r.end && virt % 4096 == 0
    && (virt < r.end && r.LargeBlock(virt) ==> virt % LARGE_PAGE_SIZE == 0)
  }

  // The loop's test for a 2 MiB step.
  predicate LargeStep(r: Range, virt: nat)
    requires r.virt <= virt <= r.end
  {
    virt % LARGE_PAGE_SIZE == 0 && (r.phys + (virt - r.virt)) % LARGE_PAGE_SIZE == 0 && r.end - virt >= LARGE_PAGE_SIZE
  }

  lemma SameBlock(r: Range, virt: nat, v: nat)
    requires virt / LARGE_PAGE_SIZE == v / LARGE_PAGE_SIZE
    ensures r.LargeBlock(virt) == r.LargeBlock(v)
  {
  }

  lemma StepArithmetic(r: Range, virt: nat)
    requires r.Ok() && r.virt <= virt < r.end && Progress(r, virt)
    ensures LargeStep(r, virt) ==> Progress(r, virt + LARGE_PAGE_SIZE) && virt + LARGE_PAGE_SIZE <= r.end
    ensures !LargeStep(r, virt) ==> !r.LargeBlock(virt) && Progress(r, virt + 4096) && virt + 4096 <= r.end
  {
    hide Range.Ok, Progress, LargeStep, Range.LargeBlock;
    if LargeStep(r, virt) {
      NextLarge(r, virt);
    } else {
      NotLargeBlock(r, virt);
      NextPage(r, virt);
    }
  }

  lemma NextLarge(r: Range, virt: nat)
    requires Progress(r, virt) && virt < r.end && LargeStep(r, virt)
    ensures Progress(r, virt + LARGE_PAGE_SIZE) && virt + LARGE_PAGE_SIZE <= r.end
  {
    hide Range.LargeBlock;
  }

  lemma NotLargeBlock(r: Range, virt: nat)
    requires Progress(r, virt) && virt < r.end && !LargeStep(r, virt)
    ensures !r.LargeBlock(virt)
  {
    if virt % LARGE_PAGE_SIZE == 0 {
      assert virt / LARGE_PAGE_SIZE * LARGE_PAGE_SIZE == virt;
    }
  }

  lemma PageFits(virt: nat, end: nat)
    requires virt % 4096 == 0 && end % 4096 == 0 && virt < end
    ensures virt + 4096 <= end && (virt + 4096) % 4096 == 0
  {
  }

  lemma SameLargePage(virt: nat)
    requires virt % 4096 == 0 && (virt + 4096) % LARGE_PAGE_SIZE != 0
    ensures (virt + 4096) / LARGE_PAGE_SIZE == virt / LARGE_PAGE_SIZE
  {
    var k := virt / 4096;
    assert virt / LARGE_PAGE_SIZE == k / 512 && (virt + 4096) / LARGE_PAGE_SIZE == (k + 1) / 512;
  }

  lemma NextPage(r: Range, virt: nat)
    requires r.Ok() && Progress(r, virt) && virt < r.end && !r.LargeBlock(virt)
    ensures Progress(r, virt + 4096) && virt + 4096 <= r.end
  {
    hide Range.LargeBlock;
    var next := virt + 4096;
    PageFits(virt, r.end);
    if next % LARGE_PAGE_SIZE != 0 {
      SameLargePage(virt);
      SameBlock(r, virt, next);
    }
  }

  lemma RangeIsCanonical(r: Range, v: nat)
    requires r.Ok() && r.Covers(v)
    ensures Canonical(v)
  {
  }

  lemma LargeTarget(phys: nat, virt: nat, v: nat, e: word, path: Perm)
    requires phys % LARGE_PAGE_SIZE == 0 && virt % LARGE_PAGE_SIZE == 0 && FrameOf(e) == phys / 4096
    requires virt <= v < virt + LARGE_PAGE_SIZE
    ensures Hit(2, e, path).Target(v) == phys + (v - virt)
    ensures v / LARGE_PAGE_SIZE == virt / LARGE_PAGE_SIZE
  {
    assert v % LARGE_PAGE_SIZE == v - virt;
    assert phys / 4096 / 512 * LARGE_PAGE_SIZE == phys;
  }

  lemma PageTarget(phys: nat, virt: nat, v: nat, e: word, path: Perm)
    requires phys % 4096 == 0 && virt % 4096 == 0 && FrameOf(e) == phys / 4096
    requires virt <= v < virt + 4096
    ensures Hit(1, e, path).Target(v) == phys + (v - virt)
    ensures v / LARGE_PAGE_SIZE == virt / LARGE_PAGE_SIZE && v / 4096 == virt / 4096
  {
    var page := virt / 4096;
    assert v % 4096 == v - virt && v / 4096 == page;
    assert phys / 4096 * 4096 == phys;
    SamePageSameBlock(page, virt);
    SamePageSameBlock(page, v);
  }

  lemma SamePageSameBlock(page: nat, x: nat)
    requires x / 4096 == page
    ensures x / LARGE_PAGE_SIZE == page / 512
  {
    DivUnique(x, LARGE_PAGE_SIZE, page / 512, x - page / 512 * LARGE_PAGE_SIZE);
  }

  lemma PhysAt(r: Range, virt: nat)
    requires r.Ok() && Progress(r, virt) && virt < r.end
    ensures r.Covers(virt) && r.Phys(virt) < PHYS_LIMIT && r.Phys(virt) % 4096 == 0 && virt % 4096 == 0 && virt + 4096 <= r.end
    ensures FlagsOk(r.flags)
  {
  }

  lemma LargeStepMaps(r: Range, virt: nat, v: nat, w0: Walk, path: Perm)
    requires r.Ok() && Progress(r, virt) && virt < r.end && LargeStep(r, virt)
    requires virt <= v < virt + LARGE_PAGE_SIZE
    requires path.w && !path.nx && (User(r.flags) ==> path.u == w0.path.u)
    ensures MapsTo(r, v, w0, Hit(2, LeafEntry(r.Phys(virt), r.flags, true), path))
  {
    hide LeafEntry, Bit, FrameOf, Walk.Target;
    var e := LeafEntry(r.Phys(virt), r.flags, true);
    LeafEntryBits(r.Phys(virt), r.flags, true);
    LargeTarget(r.Phys(virt), virt, v, e, path);
    SameBlock(r, virt, v);
    assert r.LargeBlock(virt);
  }

  lemma PageStepMaps(r: Range, virt: nat, v: nat, w0: Walk, path: Perm)
    requires r.Ok() && Progress(r, virt) && virt < r.end && !LargeStep(r, virt)
    requires r.Covers(v) && virt <= v < virt + 4096
    requires path.w && !path.nx && (User(r.flags) ==> path == w0.path)
    ensures MapsTo(r, v, w0, Hit(1, LeafEntry(r.Phys(virt), r.flags, false), path))
  {
    hide LeafEntry, Bit, FrameOf, Walk.Target, Range.LargeBlock, LargeStep, Range.Ok, FlagsOk, Progress, Writable, User, NoExecute;
    PhysAt(r, virt);
    var e := LeafEntry(r.Phys(virt), r.flags, false);
    LeafEntryBits(r.Phys(virt), r.flags, false);
    StepArithmetic(r, virt);
    PageTarget(r.Phys(virt), virt, v, e, path);
    SameBlock(r, virt, v);
  }

  // One 2 MiB step: link the tables down to the page directory, then write one leaf.
  lemma LargeStepDone(mem0: Memory, m1: Memory, m2: Memory, m3: Memory, root: nat, r: Range, virt: nat, path: Perm)
    requires r.Ok() && Progress(r, virt) && virt < r.end && LargeStep(r, virt)
    requires MappedUpTo(mem0, m1, root, r, virt) && SameWalks(m1, m2, root, User(r.flags))
    requires Remaps(m2, m3, root, 2, virt, Hit(2, LeafEntry(r.Phys(virt), r.flags, true), path))
    requires path.w && !path.nx
    requires forall v: nat :: Prefix(1, v) == Prefix(1, virt) ==> Translate(m2, root, v).path.u == path.u
    ensures MappedUpTo(mem0, m3, root, r, virt + LARGE_PAGE_SIZE)
  {
    hide Range.Ok, MapsTo, Translate, LeafEntry;
    RangeIsCanonical(r, virt);
    forall v: nat | Canonical(v)
      ensures PageDone(mem0, m3, root, r, virt + LARGE_PAGE_SIZE, v)
    {
      LargeStepPage(mem0, m1, m2, m3, root, r, virt, path, v);
    }
  }

  lemma LargeStepPage(mem0: Memory, m1: Memory, m2: Memory, m3: Memory, root: nat, r: Range, virt: nat, path: Perm, v: nat)
    requires r.Ok() && Progress(r, virt) && virt < r.end && LargeStep(r, virt) && Canonical(virt) && Canonical(v)
    requires PageDone(mem0, m1, root, r, virt, v)
    requires SameWalk(Translate(m1, root, v), Translate(m2, root, v), User(r.flags))
    requires Translate(m3, root, v) == if Prefix(1, v) == Prefix(1, virt)
      then Hit(2, LeafEntry(r.Phys(virt), r.flags, true), path) else Translate(m2, root, v)
    requires path.w && !path.nx
    requires Prefix(1, v) == Prefix(1, virt) ==> Translate(m2, root, v).path.u == path.u
    ensures PageDone(mem0, m3, root, r, virt + LARGE_PAGE_SIZE, v)
  {
    hide Range.Ok, Translate, LeafEntry, Prefix, Canonical, Range.LargeBlock;
    CanonicalSlot(2, v, virt);
    BlockMembers(virt, v);
    if Prefix(1, v) == Prefix(1, virt) {
      LargeStepMaps(r, virt, v, Translate(mem0, root, v), path);
    }
  }

  // One 4 KiB step.
  lemma PageStepDone(mem0: Memory, m1: Memory, m2: Memory, root: nat, r: Range, virt: nat, path: Perm)
    requires r.Ok() && r.virt <= virt && virt + 4096 <= r.end && Progress(r, virt) && !LargeStep(r, virt)
    requires MappedUpTo(mem0, m1, root, r, virt)
    requires path == Translate(m1, root, virt).path && path.w && !path.nx
    requires Remaps(m1, m2, root, 1, virt, Hit(1, LeafEntry(r.Phys(virt), r.flags, false), path))
    ensures MappedUpTo(mem0, m2, root, r, virt + 4096)
  {
    hide Range.Ok, MapsTo, LeafEntry, LargeStep, Translate, Progress, PageDone, Prefix, Canonical;
    RangeIsCanonical(r, virt);
    forall v: nat | Canonical(v)
      ensures PageDone(mem0, m2, root, r, virt + 4096, v)
    {
      assert PageDone(mem0, m1, root, r, virt, v);
      PageStepPage(mem0, m1, m2, root, r, virt, path, v);
    }
  }

  lemma PageStepPage(mem0: Memory, m1: Memory, m2: Memory, root: nat, r: Range, virt: nat, path: Perm, v: nat)
    requires r.Ok() && Progress(r, virt) && virt < r.end && !LargeStep(r, virt) && virt + 4096 <= r.end
    requires Canonical(virt) && Canonical(v)
    requires PageDone(mem0, m1, root, r, virt, v)
    requires path == Translate(m1, root, virt).path && path.w && !path.nx
    requires Translate(m2, root, v) == if Prefix(0, v) == Prefix(0, virt)
      then Hit(1, LeafEntry(r.Phys(virt), r.flags, false), path) else Translate(m1, root, v)
    ensures PageDone(mem0, m2, root, r, virt + 4096, v)
  {
    hide Range.Ok, Translate, LeafEntry, Prefix, Canonical, Range.LargeBlock, LargeStep;
    CanonicalSlot(1, v, virt);
    BlockMembers(virt, v);
    if Prefix(0, v) == Prefix(0, virt) {
      PageHasOneWalk(m1, root, v, virt);
      PageStepMaps(r, virt, v, Translate(mem0, root, v), path);
    }
  }

  // A failed step changes no translation, so the progress stands.
  lemma StepFailed(mem0: Memory, m1: Memory, m2: Memory, root: nat, r: Range, virt: nat)
    requires Progress(r, virt) && MappedUpTo(mem0, m1, root, r, virt) && SameWalks(m1, m2, root, User(r.flags))
    ensures MappedUpTo(mem0, m2, root, r, virt)
  {
    hide Translate, MapsTo;
    forall v: nat | Canonical(v)
      ensures PageDone(mem0, m2, root, r, virt, v)
    {
      assert PageDone(mem0, m1, root, r, virt, v);
      assert SameWalk(Translate(m1, root, v), Translate(m2, root, v), User(r.flags));
      if r.virt <= v < virt {
        MapsToIsHit(r, v, Translate(mem0, root, v), Translate(m1, root, v));
      }
    }
  }

  lemma BlockMembers(virt: nat, v: nat)
    ensures virt % LARGE_PAGE_SIZE == 0 ==> (v / Span(2) == virt / Span(2) <==> virt <= v < virt + LARGE_PAGE_SIZE)
    ensures virt % 4096 == 0 ==> (v / Span(1) == virt / Span(1) <==> virt <= v < virt + 4096)
  {
  }

  lemma MapsToIsHit(r: Range, v: nat, w0: Walk, w: Walk)
    requires r.Covers(v) && MapsTo(r, v, w0, w)
    ensures w.Hit?
  {
  }

  // The page the next single-page step maps is not under a large leaf.
  lemma PageReady(mem0: Memory, m1: Memory, root: nat, r: Range, virt: nat)
    requires r.Ok() && Progress(r, virt) && virt < r.end && !LargeStep(r, virt)
    requires NoLargeInTheWay(mem0, root, r) && MappedUpTo(mem0, m1, root, r, virt)
    ensures !Translate(m1, root, virt).IsLarge()
  {
    hide Range.Ok, MapsTo, LargeStep, Translate;
    RangeIsCanonical(r, virt);
    StepArithmetic(r, virt);
    assert PageDone(mem0, m1, root, r, virt, virt);
    assert !Translate(mem0, root, virt).IsLarge();
  }

  lemma NothingMappedYet(mem: Memory, root: nat, r: Range)
    requires r.Ok()
    ensures Progress(r, r.virt) && MappedUpTo(mem, mem, root, r, r.virt)
  {
    hide Translate;
    if r.virt < r.end && r.LargeBlock(r.virt) {
      assert r.virt / LARGE_PAGE_SIZE * LARGE_PAGE_SIZE <= r.virt;
    }
    forall v: nat | Canonical(v)
      ensures PageDone(mem, mem, root, r, r.virt, v)
    {
    }
  }

  // Some first part of the range is mapped as asked; no other walk changed.
  ghost predicate MappedPartly(mem0: Memory, mem: Memory, root: nat, r: Range) {
    exists reached :: r.virt <= reached <= r.end && MappedUpTo(mem0, mem, root, r, reached)
  }

  lemma PartlyMapped(mem0: Memory, mem: Memory, root: nat, r: Range, reached: nat)
    requires r.virt <= reached <= r.end && MappedUpTo(mem0, mem, root, r, reached)
    ensures MappedPartly(mem0, mem, root, r)
  {
  }

  // ---- How many frames a mapping takes ----

  // The tables the step at virt takes, when the pages before it have theirs.
  function StepFrames(lack: nat -> nat, r: Range, virt: nat): nat
    requires r.virt <= virt <= r.end
  {
    var n := Min(lack(virt), Touched(r.virt, virt, virt));
    if LargeStep(r, virt) then (if n == 0 then 0 else n - 1) else n
  }

  // The tables the steps from virt on take.
  function FramesFrom(lack: nat -> nat, r: Range, virt: nat): nat
    requires r.virt <= virt
    decreases r.end - virt
  {
    if virt >= r.end then 0
    else StepFrames(lack, r, virt) + FramesFrom(lack, r, virt + if LargeStep(r, virt) then LARGE_PAGE_SIZE else 4096)
  }

  // All the tables a range takes, from what each address lacks before.
  function RangeFrames(lack: nat -> nat, r: Range): nat {
    FramesFrom(lack, r, r.virt)
  }

  // So far the frames of the steps before virt were taken, and exactly the tables of
  // those steps were added.
  ghost predicate FramesTaken(lack: nat -> nat, free0: nat, mem: Memory, root: nat, free: nat, r: Range, virt: nat)
    requires r.virt <= virt
  {
    && free + RangeFrames(lack, r) == free0 + FramesFrom(lack, r, virt)
    && LackingAfter(lack, mem, root, r.virt, virt)
  }

  lemma NoFramesYet(mem: Memory, root: nat, free: nat, r: Range)
    ensures FramesTaken(Lacking(mem, root), free, mem, root, free, r, r.virt)
  {
    hide Missing;
  }

  // What a step needs is what its address lacks now.
  lemma StepLacks(lack: nat -> nat, free0: nat, mem: Memory, root: nat, free: nat, r: Range, virt: nat)
    requires r.Ok() && r.virt <= virt < r.end && FramesTaken(lack, free0, mem, root, free, r, virt)
    ensures var n := Missing(mem, root, virt);
      && StepFrames(lack, r, virt) == (if LargeStep(r, virt) then (if n == 0 then 0 else n - 1) else n)
      && free0 - RangeFrames(lack, r) <= free - StepFrames(lack, r, virt)
  {
    hide Missing, LargeStep, Touched, Range.Ok;
    RangeIsCanonical(r, virt);
  }

  lemma AllFramesTaken(lack: nat -> nat, free0: nat, mem: Memory, root: nat, free: nat, r: Range)
    requires r.virt <= r.end && FramesTaken(lack, free0, mem, root, free, r, r.end)
    ensures free + RangeFrames(lack, r) == free0 && LackingAfter(lack, mem, root, r.virt, r.end)
  {
  }

  // The tables of one block added.
  ghost predicate BlockTaken(m1: Memory, m2: Memory, root: nat, virt: nat, next: nat) {
    forall v: nat :: Canonical(v) ==>
      Missing(m2, root, v) == if virt <= v < next then 0 else Min(Missing(m1, root, v), Parting(virt, v))
  }

  lemma NextFrames(lack: nat -> nat, free0: nat, m1: Memory, m2: Memory, root: nat, free1: nat, free2: nat, r: Range, virt: nat, next: nat)
    requires r.Ok() && Progress(r, virt) && virt < next <= r.end
    requires next == virt + if LargeStep(r, virt) then LARGE_PAGE_SIZE else 4096
    requires FramesTaken(lack, free0, m1, root, free1, r, virt) && free2 + StepFrames(lack, r, virt) == free1
    requires BlockTaken(m1, m2, root, virt, next)
    ensures FramesTaken(lack, free0, m2, root, free2, r, next)
  {
    StepIsBlock(r, virt, next);
    hide Missing, LargeStep, Touched, Parting, Range.Ok, Progress, Canonical, Prefix, StepFrames;
    forall v: nat | Canonical(v)
      ensures Missing(m2, root, v) == Min(lack(v), Touched(r.virt, next, v))
    {
      TouchedGrows(r.virt, virt, next, v);
      assert Missing(m1, root, v) == Min(lack(v), Touched(r.virt, virt, v));
    }
  }

  // The addresses of a step share all their tables.
  lemma StepIsBlock(r: Range, virt: nat, next: nat)
    requires r.Ok() && Progress(r, virt) && virt < next <= r.end
    requires next == virt + if LargeStep(r, virt) then LARGE_PAGE_SIZE else 4096
    ensures Canonical(r.virt) && Canonical(virt) && Canonical(next - 1) && (r.virt < virt ==> Canonical(virt - 1))
    ensures Prefix(1, virt) == Prefix(1, next - 1) && Parting(virt, next - 1) == 0
  {
    RangeIsCanonical(r, r.virt);
    RangeIsCanonical(r, virt);
    RangeIsCanonical(r, next - 1);
    if r.virt < virt {
      RangeIsCanonical(r, virt - 1);
    }
    CanonicalSlot(2, next - 1, virt);
    SameLargeBlock(virt, next);
  }

  lemma SameLargeBlock(virt: nat, next: nat)
    requires virt % 4096 == 0 && (next == virt + 4096 || (virt % LARGE_PAGE_SIZE == 0 && next == virt + LARGE_PAGE_SIZE))
    ensures virt / LARGE_PAGE_SIZE == (next - 1) / LARGE_PAGE_SIZE
  {
  }

  lemma PageTaken(m1: Memory, m2: Memory, root: nat, virt: nat)
    requires Fewer(m1, m2, root, virt, 0) && virt % 4096 == 0 && Canonical(virt)
    ensures BlockTaken(m1, m2, root, virt, virt + 4096)
  {
    hide Missing, Parting, Canonical;
    forall v: nat | Canonical(v)
      ensures Missing(m2, root, v) == if virt <= v < virt + 4096 then 0 else Min(Missing(m1, root, v), Parting(virt, v))
    {
      if virt <= v < virt + 4096 {
        OnePage(virt, v);
      }
    }
  }

  lemma LargeTaken(m1: Memory, m2: Memory, m3: Memory, root: nat, virt: nat)
    requires Fewer(m1, m2, root, virt, 1) && virt % LARGE_PAGE_SIZE == 0 && Canonical(virt)
    requires forall v: nat :: Missing(m3, root, v) == if Prefix(1, v) == Prefix(1, virt) then 0 else Missing(m2, root, v)
    ensures BlockTaken(m1, m3, root, virt, virt + LARGE_PAGE_SIZE)
  {
    hide Missing, Canonical, Prefix;
    forall v: nat | Canonical(v)
      ensures Missing(m3, root, v) ==
        if virt <= v < virt + LARGE_PAGE_SIZE then 0 else Min(Missing(m1, root, v), Parting(virt, v))
    {
      BlockMembers(virt, v);
      CanonicalSlot(2, v, virt);
    }
  }

  lemma SlotPath(vm: Vmm, t: nat, virt: nat, path: Perm)
    requires vm.Valid() && vm.Rooted() && Reaches(vm.mem, vm.root, 4, virt, FULL_ACCESS, t, 2, path)
    ensures path.w && !path.nx
    ensures forall v: nat :: Prefix(1, v) == Prefix(1, virt) ==> Translate(vm.mem, vm.root, v).path.u == path.u
  {
    hide Reaches, WellFormed, Translate;
    PathAtDirectory(vm.mem, vm.owner, vm.root, t, virt, path, virt);
    forall v: nat | Prefix(1, v) == Prefix(1, virt)
      ensures Translate(vm.mem, vm.root, v).path.u == path.u
    {
      PathAtDirectory(vm.mem, vm.owner, vm.root, t, virt, path, v);
    }
  }

  lemma LargeStepIs(r: Range, virt: nat)
    requires r.virt <= virt <= r.end
    ensures LARGE_PAGE_SIZE == 0x20_0000
    ensures LargeStep(r, virt) == (virt % LARGE_PAGE_SIZE == 0
      && (r.phys + (virt - r.virt)) % LARGE_PAGE_SIZE == 0 && r.end - virt >= LARGE_PAGE_SIZE)
  {
  }

  lemma RangeFits(r: Range, virt: nat)
    requires r.Ok() && r.virt <= virt < r.end
    ensures virt < 0x1_0000_0000_0000_0000 && r.Covers(virt) && r.Phys(virt) == r.phys + (virt - r.virt) && r.Phys(virt) < PHYS_LIMIT
    ensures FlagsOk(r.flags) && r.flags < 0x1_0000_0000_0000_0000
  {
  }

  // The 2 MiB step of the loop.
  method MapLarge(vm: Vmm, virt: word, phys: nat, flags: nat, ghost mem0: Memory, ghost r: Range) returns (ok: bool)
    requires vm.Valid() && vm.Rooted() && r.Ok() && r.virt <= virt < r.end && Progress(r, virt) && LargeStep(r, virt)
    requires r.flags == flags && phys == r.Phys(virt)
    requires MappedUpTo(mem0, vm.mem, vm.root, r, virt)
    modifies vm`mem, vm`owner, vm.pmm`lastFreeIndex, vm.pmm.bitmap
    ensures vm.Valid() && vm.Rooted() && AddsTables(old(vm.owner), vm.owner)
    ensures ok ==> Progress(r, virt + LARGE_PAGE_SIZE) && MappedUpTo(mem0, vm.mem, vm.root, r, virt + LARGE_PAGE_SIZE)
    ensures !ok ==> MappedUpTo(mem0, vm.mem, vm.root, r, virt) && AllUsed(vm.pmm.Used())
    ensures var n := old(vm.Lacks(virt)); var frames := if n == 0 then 0 else n - 1;
      && (ok <==> old(vm.Free()) >= frames)
      && (ok ==> vm.Free() + frames == old(vm.Free()))
    ensures ok ==> BlockTaken(old(vm.mem), vm.mem, vm.root, virt, virt + LARGE_PAGE_SIZE)
    ensures !ok ==> vm.Free() == 0
  {
    hide *;
    var user := User(flags);
    var pdpt, pd;
    ghost var path := FULL_ACCESS;
    ghost var m0, owner0 := vm.mem, vm.owner;
    StepArithmetic(r, virt);
    RangeFits(r, virt);
    LacksIs(vm, virt);
    LargeStepIs(r, virt);
    ReachesRoot(vm.mem, vm.root, virt);
    ok, pdpt, path := vm.Descend(vm.root, user, virt, 4, path);
    StepFailed(mem0, m0, vm.mem, vm.root, r, virt);
    if !ok { return; }
    ghost var m1, owner1 := vm.mem, vm.owner;
    ok, pd, path := vm.Descend(pdpt, user, virt, 3, path);
    AddsTablesCompose(owner0, owner1, vm.owner);
    StepFailed(mem0, m1, vm.mem, vm.root, r, virt);
    if !ok { return; }
    ghost var m2 := vm.mem;
    LacksIs(vm, virt);
    FewerCompose(m0, m1, m2, vm.root, virt, 1);
    FewerAt(m0, m2, vm.root, virt, 1);
    SlotPath(vm, pd, virt, path);
    LeafEntryBits(phys, flags, true);
    vm.WriteEntry(pd, Index(2, virt), LeafEntry(phys, flags, true), 2, virt, path);
    NothingChanges(m2, vm.owner, vm.root, user);
    LargeStepDone(mem0, m2, m2, vm.mem, vm.root, r, virt, path);
    RangeIsCanonical(r, virt);
    LargeTaken(m0, m2, vm.mem, vm.root, virt);
  }

  // The 4 KiB step of the loop.
  method MapSmall(vm: Vmm, virt: word, phys: nat, flags: nat, ghost mem0: Memory, ghost r: Range) returns (ok: bool)
    requires vm.Valid() && vm.Rooted() && r.Ok() && r.virt <= virt < r.end && Progress(r, virt) && !LargeStep(r, virt)
    requires r.flags == flags && phys == r.Phys(virt)
    requires NoLargeInTheWay(mem0, vm.root, r) && MappedUpTo(mem0, vm.mem, vm.root, r, virt)
    modifies vm`mem, vm`owner, vm.pmm`lastFreeIndex, vm.pmm.bitmap
    ensures vm.Valid() && vm.Rooted() && AddsTables(old(vm.owner), vm.owner)
    ensures ok ==> Progress(r, virt + 4096) && virt + 4096 <= r.end && MappedUpTo(mem0, vm.mem, vm.root, r, virt + 4096)
    ensures !ok ==> MappedUpTo(mem0, vm.mem, vm.root, r, virt) && AllUsed(vm.pmm.Used())
    ensures ok <==> old(vm.Free()) >= old(vm.Lacks(virt))
    ensures ok ==> vm.Free() + old(vm.Lacks(virt)) == old(vm.Free())
    ensures ok ==> BlockTaken(old(vm.mem), vm.mem, vm.root, virt, virt + 4096)
    ensures !ok ==> vm.Free() == 0
  {
    hide *;
    ghost var m1 := vm.mem;
    StepArithmetic(r, virt);
    RangeFits(r, virt);
    PageReady(mem0, m1, vm.root, r, virt);
    PathOfPage(vm, virt);
    ok := vm.MapPage(virt, phys, flags);
    if !ok {
      SameWalksWeaken(m1, vm.mem, vm.root, User(flags));
      StepFailed(mem0, m1, vm.mem, vm.root, r, virt);
      return;
    }
    PageStepDone(mem0, m1, vm.mem, vm.root, r, virt, Translate(m1, vm.root, virt).path);
    RangeIsCanonical(r, virt);
    ProgressIs(r, virt);
    PageTaken(m1, vm.mem, vm.root, virt);
  }

  lemma ProgressIs(r: Range, virt: nat)
    requires Progress(r, virt)
    ensures virt % 4096 == 0
  {
  }

  method MapRange(vm: Vmm, virtStart: nat, physStart: nat, length: nat, flags: nat) returns (ok: bool)
    requires vm.Valid() && vm.Rooted()
    requires Range(virtStart, virtStart + length, physStart, flags).Ok()
    requires NoLargeInTheWay(vm.mem, vm.root, Range(virtStart, virtStart + length, physStart, flags))
    modifies vm`mem, vm`owner, vm.pmm`lastFreeIndex, vm.pmm.bitmap
    ensures vm.Valid() && vm.Rooted() && AddsTables(old(vm.owner), vm.owner)
    ensures var r := Range(virtStart, virtStart + length, physStart, flags);
      if ok then MappedUpTo(old(vm.mem), vm.mem, vm.root, r, r.end)
      else AllUsed(vm.pmm.Used()) && MappedPartly(old(vm.mem), vm.mem, vm.root, r)
    ensures var r := Range(virtStart, virtStart + length, physStart, flags);
      var frames := RangeFrames(Lacking(old(vm.mem), vm.root), r);
      && (ok <==> old(vm.Free()) >= frames)
      && (ok ==> vm.Free() + frames == old(vm.Free()))
      && (ok ==> LackingAfter(Lacking(old(vm.mem), vm.root), vm.mem, vm.root, r.virt, r.end))
      && (!ok ==> vm.Free() == 0)
  {
    hide *;
    ghost var r := Range(virtStart, virtStart + length, physStart, flags);
    var virt, phys, end := virtStart, physStart, virtStart + length;
    ghost var mem0, owner0 := vm.mem, vm.owner;
    NothingMappedYet(mem0, vm.root, r);
    NothingChanges(mem0, owner0, vm.root, true);
    PoolParts(vm);
    ghost var lack, free0 := Lacking(mem0, vm.root), vm.Free();
    NoFramesYet(mem0, vm.root, free0, r);
    while virt < end
      invariant r.virt <= virt <= r.end && Progress(r, virt) && phys == r.phys + (virt - r.virt)
      invariant vm.Valid() && vm.Rooted() && AddsTables(owner0, vm.owner)
      invariant MappedUpTo(mem0, vm.mem, vm.root, r, virt)
      invariant vm.pmm.Valid() && FramesTaken(lack, free0, vm.mem, vm.root, vm.Free(), r, virt)
      decreases end - virt
    {
      ghost var m1, owner1 := vm.mem, vm.owner;
      StepArithmetic(r, virt);
      RangeFits(r, virt);
      LargeStepIs(r, virt);
      ghost var free1 := vm.Free();
      LacksIs(vm, virt);
      StepLacks(lack, free0, m1, vm.root, free1, r, virt);
      if virt % LARGE_PAGE_SIZE == 0 && phys % LARGE_PAGE_SIZE == 0 && end - virt >= LARGE_PAGE_SIZE {
        ok := MapLarge(vm, virt, phys, flags, mem0, r);
        AddsTablesCompose(owner0, owner1, vm.owner);
        if !ok {
          PartlyMapped(mem0, vm.mem, vm.root, r, virt);
          return;
        }
        PoolParts(vm);
        NextFrames(lack, free0, m1, vm.mem, vm.root, free1, vm.Free(), r, virt, virt + LARGE_PAGE_SIZE);
        virt := virt + LARGE_PAGE_SIZE;
        phys := phys + LARGE_PAGE_SIZE;
      } else {
        ok := MapSmall(vm, virt, phys, flags, mem0, r);
        AddsTablesCompose(owner0, owner1, vm.owner);
        if !ok {
          PartlyMapped(mem0, vm.mem, vm.root, r, virt);
          return;
        }
        PoolParts(vm);
        NextFrames(lack, free0, m1, vm.mem, vm.root, free1, vm.Free(), r, virt, virt + 4096);
        virt := virt + 4096;
        phys := phys + 4096;
      }
    }
    AllFramesTaken(lack, free0, vm.mem, vm.root, vm.Free(), r);
    return true;
  }

  // ---- The range mapping refines mapping its pages one by one ----

  // Page k of the range.
  function PageOf(r: Range, k: nat): nat { r.virt + k * 4096 }

  // A run of vmm_map_page calls over the first n pages of the range.
  ghost predicate PageByPage(run: seq<Memory>, root: nat, r: Range, n: nat) {
    && |run| == n + 1 && r.Ok() && PageOf(r, n) <= r.end
    && (forall v: nat :: Translate(run[0], root, v).path.w && !Translate(run[0], root, v).path.nx)
    && (forall k :: 0 <= k < n ==> PageMapped(run, root, r, k))
  }

  ghost predicate PageMapped(run: seq<Memory>, root: nat, r: Range, k: nat)
    requires k + 1 < |run| && r.Ok() && PageOf(r, k + 1) <= r.end
  {
    RangeFits(r, PageOf(r, k));
    Remaps(run[k], run[k + 1], root, 1, PageOf(r, k),
           Hit(1, LeafEntry(r.Phys(PageOf(r, k)), r.flags, false), Translate(run[k], root, PageOf(r, k)).path))
  }

  // The walk of v once its page has been mapped singly.
  ghost predicate SinglyMapped(r: Range, v: nat, w0: Walk, w: Walk)
    requires r.Covers(v)
  {
    && w.Hit? && w.level == 1 && w.Target(v) == r.Phys(v)
    && w.Rights() == Perm(Writable(r.flags), User(r.flags) && w0.path.u, NoExecute(r.flags))
  }

  ghost predicate SinglyDone(m0: Memory, m: Memory, root: nat, r: Range, n: nat, v: nat)
    requires r.Ok() && PageOf(r, n) <= r.end
  {
    if r.virt <= v < PageOf(r, n) then SinglyMapped(r, v, Translate(m0, root, v), Translate(m, root, v))
    else Translate(m, root, v) == Translate(m0, root, v)
  }

  lemma {:induction false} PagesMapped(run: seq<Memory>, root: nat, r: Range, n: nat, v: nat)
    requires PageByPage(run, root, r, n) && Canonical(v)
    ensures SinglyDone(run[0], run[n], root, r, n, v)
    decreases n
  {
    hide Translate, Range.Ok, LeafEntry, Canonical, Prefix, FlagsOk, Bit;
    if n > 0 {
      var shorter, va := run[..n], PageOf(r, n - 1);
      forall k | 0 <= k < n - 1
        ensures PageMapped(shorter, root, r, k)
      {
        assert PageMapped(run, root, r, k);
      }
      PagesMapped(shorter, root, r, n - 1, v);
      assert PageMapped(run, root, r, n - 1);
      RangeFits(r, va);
      OnePageMore(run[0], run[n - 1], run[n], root, r, n - 1, v);
    }
  }

  lemma OnePageMore(m0: Memory, m1: Memory, m2: Memory, root: nat, r: Range, k: nat, v: nat)
    requires r.Ok() && PageOf(r, k + 1) <= r.end && Canonical(v)
    requires SinglyDone(m0, m1, root, r, k, v)
    requires r.Covers(PageOf(r, k)) && r.Phys(PageOf(r, k)) < PHYS_LIMIT && FlagsOk(r.flags)
    requires Remaps(m1, m2, root, 1, PageOf(r, k),
      Hit(1, LeafEntry(r.Phys(PageOf(r, k)), r.flags, false), Translate(m1, root, PageOf(r, k)).path))
    requires Translate(m0, root, v).path.w && !Translate(m0, root, v).path.nx
    ensures SinglyDone(m0, m2, root, r, k + 1, v)
  {
    hide Translate, LeafEntry, Canonical, Prefix, FlagsOk, Bit, FrameOf, Walk.Target;
    var va := PageOf(r, k);
    RangeIsCanonical(r, va);
    PageIsAligned(r, k);
    hide Range.Ok;
    CanonicalSlot(1, v, va);
    BlockMembers(va, v);
    if Prefix(0, v) == Prefix(0, va) {
      PageHasOneWalk(m1, root, v, va);
      LeafEntryBits(r.Phys(va), r.flags, false);
      PageTarget(r.Phys(va), va, v, LeafEntry(r.Phys(va), r.flags, false), Translate(m0, root, v).path);
    }
  }

  lemma PageIsAligned(r: Range, k: nat)
    requires r.Ok()
    ensures PageOf(r, k) % 4096 == 0 && (r.Covers(PageOf(r, k)) ==> r.Phys(PageOf(r, k)) % 4096 == 0)
  {
  }

  // Both ways of mapping the whole range give every address the same target and the
  // same rights; outside the range both change nothing.
  lemma RangeRefinesPages(run: seq<Memory>, mem: Memory, root: nat, r: Range, n: nat, v: nat)
    requires PageByPage(run, root, r, n) && PageOf(r, n) == r.end && Canonical(v)
    requires r.virt <= r.end && MappedUpTo(run[0], mem, root, r, r.end)
    ensures var single, ranged := Translate(run[n], root, v), Translate(mem, root, v);
      && single.Hit? == ranged.Hit?
      && (single.Hit? ==> single.Target(v) == ranged.Target(v))
      && (single.Hit? ==> single.Rights() == ranged.Rights())
  {
    hide Translate, Walk.Target, Walk.Rights, Range.Ok, Canonical, User, Writable, NoExecute;
    PagesMapped(run, root, r, n, v);
    assert PageDone(run[0], mem, root, r, r.end, v);
  }
}
