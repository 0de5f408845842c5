# Kernel memory, scheduling and support routines: a verified model

This project models the in-memory core of a small x86_64 kernel and proves what its
layers promise each other. `dafny verify dfyconfig.toml` checks all of it.

The layers, bottom up:

- **Words** (`Words.dfy`): the bit operations on bytes and little-endian 64-bit words,
  defined arithmetically, with the facts that the byte view and the word view of the
  same memory agree.
- **Physical pages** (`Pmm.dfy`, `PmmInit.dfy`): the bitmap allocator. A method that
  scans or changes the bitmap is proved against the abstract state `Used()`, one
  boolean per page; lemmas then say which page is chosen and exactly when a request
  fails. `PmmInit` builds that bitmap from the boot loader's memory map.
- **Page tables** (`Paging.dfy`, `MissingTables.dfy`, `Vmm.dfy`, `Ranges.dfy`,
  `Boot.dfy`): `Translate` is
  the hardware walk (section 4.5, 4-level paging, of the Intel SDM Volume 3A) with its
  access rights, over physical frames of 512 entries. The class `Vmm` carries a ghost
  owner for every used frame: a table at one level for one address prefix, a heap page
  at one address, a frame handed to a caller, or part of the boot image. Every method
  keeps "the used pages are exactly the owned frames, and the tables among them are
  well formed"; as every frame has one owner and every table one position, the frame
  conditions for all other addresses follow. `Missing` counts the tables the walk of an
  address lacks; on it rests when mapping a page, a range, the boot address space or the
  heap's growth succeeds: exactly when that many pages are free. `Boot` is the address
  space `vmm_init` builds.
- **Heap** (`HeapBlocks.dfy`, `Heap.dfy`): the first-fit allocator. `HeapBlocks` has the
  block headers and the free list as values and proves that taking, splitting,
  releasing, shrinking and growing keep the tiling; `Heap` runs the code over the
  intrusive list, the page allocator and the page tables, with the payload bytes.
- **Threads** (`Context.dfy`, `SchedSpec.dfy`, `Sched.dfy`, `Threads.dfy`): the register
  and stack machine of the context switch, the round-robin scheduler as steps on a ring,
  the scheduler's code over the intrusive ready queue and that machine, and the runs of
  both together: every thread the scheduler can switch to is parked on its own stack.
- **Support** (`Lists.dfy`, `Mem.dfy`, `Printers.dfy`, `Format.dfy`, `FormatItems.dfy`,
  `Keyboard.dfy`): the intrusive list, `memcpy` and `memset`, the number printers, the
  formatter and its colour segments, and the keyboard's event pool.
- **Boot and use** (`KernelInit.dfy`, `KernelMemory.dfy`): the memory part of
  `kernel_init`, showing that what each step demands is what the earlier steps leave
  behind, and then the memory system as the rest of the kernel uses it: page allocation
  and release, mapping and unmapping, and heap calls in any order keep one joint
  invariant, on which the single-owner statement rests, and every call of every run
  changes what it should: tables, owners, blocks, payloads and the pages handed out.

## What turned out not to hold as one might expect

Each comes with the exact condition and with a lemma at an input where it fails.

- `pmm_alloc_page` returns the address of the page, so allocating page 0 looks like
  failure (`Pmm.PageZeroLooksLikeFailure`). `Pmm.NullMeansExhausted` says exactly when a
  NULL means exhaustion; page 0 is never free when the boot loader's map has no usable
  page there, and `Vmm.Valid` keeps it so.
- `pmm_free_pages` adds `start_page + count` in 64 bits. For a count so large that the
  sum wraps to a small number it returns true and frees nothing (`Pmm.WrappingCount`);
  `Pmm.Pmm.FreePages` says exactly when.
- A run of free pages that straddles the search start is never found by
  `pmm_alloc_pages` (`Pmm.StraddlingRunIsMissed`); `Pmm.ChooseRunExact` says it fails
  exactly when only such runs are left.
- A page mapped with the user flag under a table that an earlier kernel mapping linked
  without it is closed to user code (`Vmm.UserPageUnderKernelTable`);
  `Vmm.MapPageRights` gives the exact rights.
- The direct map of physical memory is writable and executable, so the kernel's text is
  writable through its alias there (`Boot.TextIsWritableThroughAlias`). At the section
  addresses no page is both (`Boot.KernelIsMapped`); an address is both exactly when it
  lies in the direct map or the framebuffer (`Boot.WritableAndExecutable`).
- `kcalloc` multiplies in `size_t`, so 2^60 + 1 elements of 16 bytes are asked for as 16
  bytes (`Heap.CallocCanWrap`); `Heap.CallocHoldsRequest` shows that the block holds the
  request if and only if the product does not wrap.
- `consume_format_args` reads past the terminator when a format ends inside a conversion
  (`Format.LonePercent`); the model stops there and reports it, exactly for formats that
  are not `Complete`.
- `kprintf` takes the second `%` of a `%%` before a `C` for a colour and leaves a lone
  `%` before it (`FormatItems.PercentPercentC`): among complete formats with short segments, its segments are complete if
  and only if there is no such `%%C` (`FormatItems.ClashBreaksFormat`).

- `lapic_init` and `ioapic_init_keyboard` call `vmm_map_page` at the offset address of a
  device register, which is wrong under a 2 MiB page. A memory map entry can cause one
  there (`Boot.IoApicUnderLargePage`); `Boot.DevicePageIsReady` says that the call is
  right exactly when no entry and no framebuffer fills the 2 MiB block.

## Model

| member | source | states |
|---|---|---|
| Words.SetBitAt | src/kernel/memory/pmm.c:56-58 | Setting bit i makes exactly that bit one; every other bit reads as before. |
| Words.ClearBitAt | src/kernel/memory/pmm.c:60-62 | Clearing bit i makes exactly that bit zero; every other bit reads as before. |
| Words.LoadBit | src/kernel/memory/pmm.c:260-275 | Bit i of the word loaded from bytes is bit i mod 8 of byte i / 8, so the byte-wise and the word-wise readings of the bitmap agree. |
| Words.CtzIsLowestSetBit | src/kernel/memory/pmm.c:274 | Counting trailing zeros finds a set bit with no set bit below it. |
| Words.StoreLoad | src/klib/mem.c:54-71 | A word loaded from eight bytes and stored again gives the same bytes. |
| Pmm.Pmm.SetPage | src/kernel/memory/pmm.c:56-58 | Of all the bitmap's bits only the page's changes, to used. |
| Pmm.Pmm.ClearPage | src/kernel/memory/pmm.c:60-62 | Of all the bitmap's bits only the page's changes, to free. |
| Pmm.LowestClearBit | src/kernel/memory/pmm.c:273-274 | A word that is not all ones has a clear bit where counting the trailing zeros of its complement says, and none below; an all-ones word has none. |
| Pmm.Pmm.ScanWords | src/kernel/memory/pmm.c:272-284 | One pass over the words from begin to end finds the lowest free page among them, skipping the padding bits, or none. |
| Pmm.Pmm.AllocPage | src/kernel/memory/pmm.c:255-288 | Takes the page the hint chooses, marks only that page used and moves the hint to its word; with no choice nothing changes. |
| Pmm.ChoosePageExact | src/kernel/memory/pmm.c:263-287 | The choice is the lowest free page at or after the hint's word, failing that the lowest before it, and there is none if and only if every page is used. |
| Pmm.ChoosePageByHint | src/kernel/memory/pmm.c:261-287 | With a hint whose page number hint * 64 is inside memory the choice is the lowest free page from there on, or, with none from there on, the lowest free page; with any other hint it is the lowest free page. |
| Pmm.HintNeverDecidesSuccess | src/kernel/memory/pmm.c:263-287 | For any two hints an allocation succeeds with one if and only if it does with the other. |
| Pmm.NullMeansExhausted | src/kernel/memory/pmm.c:282-287 | The returned address is 0 exactly when all pages are used or page 0 itself is the choice; with page 0 in use, 0 means exhaustion. |
| Pmm.PageZeroLooksLikeFailure | src/kernel/memory/pmm.c:282 | With page 0 the only free page, the allocation chooses it and returns 0. |
| Pmm.Pmm.ScanRun | src/kernel/memory/pmm.c:310-330 | One pass finds the lowest start of a run of count free pages lying inside the pass, or none. |
| Pmm.Pmm.AllocPages | src/kernel/memory/pmm.c:290-336 | Marks exactly the chosen run used and returns its start; a count of 0 gives 0, a count of 1 is the single-page allocation, and a failure changes nothing. |
| Pmm.ChooseRunExact | src/kernel/memory/pmm.c:298-335 | For two or more pages the choice is the lowest run from the search start on, then the lowest before it; there is none if and only if every free run of that length straddles the search start. |
| Pmm.ChooseRunByHint | src/kernel/memory/pmm.c:298-335 | The same for runs: from page hint * 64 on if that is inside memory, then wholly before it, else the lowest run of all. |
| Pmm.NoRunByHint | src/kernel/memory/pmm.c:298-335 | No run is chosen if and only if every free run of that length has page hint * 64, inside memory, strictly in its middle. |
| Pmm.StraddlingRunIsMissed | src/kernel/memory/pmm.c:298-335 | With only pages 63 and 64 free and the hint at word 1, a request for two pages finds nothing. |
| Pmm.Pmm.FreePage | src/kernel/memory/pmm.c:338-367 | Frees exactly the page of an aligned, in-range address in use and lowers the hint; 0 or an uninitialised allocator returns false; every other case panics without changing anything. |
| Pmm.Pmm.FreePages | src/kernel/memory/pmm.c:369-398 | Returns true if and only if all pages of the range are in use, and then frees exactly those, or the 64-bit sum wraps, and then frees none; on a panic exactly the pages before the first one already free are freed, and none when the range is not aligned or out of bounds. |
| Pmm.WrappingCount | src/kernel/memory/pmm.c:381-390 | Freeing 2^64 - 1 pages from address 4096 on is a wrapping request, whatever the size of memory. |
| Pmm.NoneFree | src/kernel/memory/pmm.c:286-287 | The number of free pages is 0 if and only if every page is used. |
| PmmInit.FindKernelEnd | src/kernel/memory/pmm.c:85-101 | The end of the first executable entry that holds the kernel's start; none exactly when no entry holds it. |
| PmmInit.FindHighestAddress | src/kernel/memory/pmm.c:104-123 | The largest end of the entries that count towards the bitmap, attained by one of them. |
| PmmInit.CoversEveryEntry | src/kernel/memory/pmm.c:104-161 | Every page sharing a byte with a usable, boot-loader-reclaimable, executable, ACPI-reclaimable or ACPI-NVS entry is below the page count. |
| PmmInit.LastPageIsRam | src/kernel/memory/pmm.c:104-161 | The page count is no larger than that: an entry of one of these five kinds ends above the start of the last page. |
| PmmInit.OtherKindsDoNotMatter | src/kernel/memory/pmm.c:104-123 | Two maps with the same entries of these five kinds get the same page count, whatever reserved, bad, framebuffer or other entries they have. |
| PmmInit.PlaceBitmap | src/kernel/memory/pmm.c:125-150 | The aligned start, never 0, of the first usable entry whose page-aligned interior holds the bitmap; none exactly when no entry does. |
| PmmInit.ClearRegion | src/kernel/memory/pmm.c:181-199 | Head pages, 64-page bulk clears and tail pages together free exactly the pages of the region and leave every other bit alone. |
| PmmInit.FreeUsableRegions | src/kernel/memory/pmm.c:168-202 | After the loop a bit is clear if it was or if its page lies wholly inside some usable entry, and no other bit changed. |
| PmmInit.LayoutFits | src/kernel/memory/pmm.c:204-217 | The kernel's and the bitmap's pages are all inside the bitmap's range, so protecting them stays in bounds. |
| PmmInit.LayoutMeans | src/kernel/memory/pmm.c:85-150 | The kernel ends with an executable entry that holds its start, and the bitmap of the computed size lies at the first usable place for it. |
| PmmInit.BitmapSize | src/kernel/memory/pmm.c:155-161 | The bitmap has the bytes of all whole 64-page words, and one more when the page count is no multiple of 8. |
| PmmInit.BitmapIsExact | src/kernel/memory/pmm.c:152-217 | Filling, freeing the usable interiors and protecting kernel and bitmap leave a page free if and only if it is in a usable interior and overlaps neither, with all padding bits set. |
| PmmInit.FreePageMeans | src/kernel/memory/pmm.c:152-217 | Spelled out by bytes: a page is free if and only if all its bytes lie in one usable entry and none of them in the kernel or the bitmap. |
| PmmInit.BuildBitmap | src/kernel/memory/pmm.c:152-217 | Builds that bitmap in a fresh array of the computed size, with every access in bounds. |
| PmmInit.Init | src/kernel/memory/pmm.c:219-238 | On return the free pages are exactly as described and the page count covers exactly the highest counted entry; it panics if and only if the map or the kernel address is missing, no entry holds the kernel, or no entry holds the bitmap. |
| PmmInit.CannotInitMeans | src/kernel/memory/pmm.c:219-238 | Spelled out by entries: the panic condition is an empty map, a zero kernel address, no executable entry holding the kernel, or no aligned place for the bitmap in a usable entry. |
| PmmInit.Reclaim | src/kernel/memory/pmm.c:401-433 | Before initialisation nothing happens; with the boot loader's tables still active it panics; otherwise it frees exactly the pages of boot-loader-reclaimable entries rounded outwards, up to the end of the bitmap, and resets the hint. On the map the bitmap was built from nothing is cut off: every page sharing a byte with such an entry becomes free. |
| Paging.PrefixStep | src/include/kernel/memory/vmm.h:17-20 | Index decomposition: the address bits above one level are those above the next followed by that level's index. |
| Paging.SameIndicesSamePage | src/include/kernel/memory/vmm.h:17-20 | Two canonical addresses with the same four indices are on the same page. |
| Paging.WalkUnaffected | src/kernel/memory/vmm.c:155-156 | Changing one entry of one table changes no walk that does not pass through that entry. |
| Paging.LinkKeepsWellFormed | src/kernel/memory/vmm.c:115-122 | Linking a fresh zeroed table under an entry keeps every table at one level for one address prefix. |
| Paging.WalkLinked | src/kernel/memory/vmm.c:115-122 | Linking a fresh zeroed table under an absent entry leaves the translation of every address as it was. |
| Paging.LeafWritten | src/kernel/memory/vmm.c:155-156 | Writing a leaf at the table a walk reaches gives every address of that slot the new walk, changes no other address's, and keeps the tables well formed. |
| Paging.PathIsPermissive | src/kernel/memory/vmm.c:122 | The tables above any leaf allow writing and execution, so a leaf's own flags decide both. |
| Paging.PathAtDirectory | src/kernel/memory/vmm.c:152 | Below a page directory no table takes user access away, so all addresses of its slot have the same user access along their walks. |
| Paging.SamePageSameWalk | src/include/kernel/memory/vmm.h:17-20 | All addresses of a page walk to the same entry with the same rights. |
| MissingTables.MissingShared | src/kernel/memory/vmm.c:110-153 | An address lacks no more tables than it does not share with a walk, or than lie below the table that walk reached. |
| MissingTables.LinkFewer | src/kernel/memory/vmm.c:115-122 | After linking a table on a walk, an address lacks as many tables as before, but no more than it does not share with that walk or than are still missing below the new table. |
| MissingTables.LeafFewer | src/kernel/memory/vmm.c:81-84 | A small leaf changes what no address lacks; a 2 MiB leaf leaves the addresses of its block lacking nothing. |
| MissingTables.TouchedGrows | src/kernel/memory/vmm.c:51-91 | What an address does not share with the addresses of a longer range is the smaller of what it does not share with the first part and with the next block. |
| Vmm.Vmm.TakeFrame | src/kernel/memory/pmm.c:255-288 | Handing out a page gives it the one named owner; it was owned by nobody; failure means every page is used. |
| Vmm.Vmm.ReleaseFrame | src/kernel/memory/pmm.c:338-367 | Freeing a page that was handed out always succeeds and removes exactly its ownership. |
| Vmm.Vmm.TakeFrames | src/kernel/memory/pmm.c:290-336 | Handing out a run of pages gives each the one named owner; none was owned; failure changes nothing and means no free run outside those straddling the search start. |
| Vmm.Vmm.ReleaseFrames | src/kernel/memory/pmm.c:369-398 | Freeing a run of pages that were handed out always succeeds and removes exactly their ownership. |
| Vmm.OwnedAreCounted | src/kernel/memory/pmm.c:255-398 | Owned frames and free pages together are all pages. |
| Vmm.Vmm.NextTable | src/kernel/memory/vmm.c:110-153 | The get-or-create step: a present entry is followed and memory, owners and used pages stay as they were; an absent one gets a fresh zeroed table, one page fewer free. It fails if and only if the entry is absent and no page is free, and then nothing changed. |
| Vmm.Vmm.Descend | src/kernel/memory/vmm.c:110-153 | One level down the walk of the address, with the table it reaches tied to the hardware walk; it fails exactly when this level's table is missing and no page is free. |
| Vmm.Vmm.WriteEntry | src/kernel/memory/vmm.c:155-156 | Writing the reached entry remaps exactly the slot of the address. |
| Vmm.LeafEntryBits | src/kernel/memory/vmm.c:81-156 | The composed leaf entry is present, holds the physical frame, has the flags' write, user and no-execute bits, and the size bit when large. |
| Vmm.Vmm.MapPage | src/kernel/memory/vmm.c:102-164 | Succeeds if and only if at least as many pages are free as tables are missing on the walk, and then takes exactly that many. On success the hardware walk of the page is the leaf asked for and every other page's walk is unchanged; on failure every walk is unchanged, even if empty tables were linked, and memory is exhausted. |
| Vmm.MapPageRights | src/kernel/memory/vmm.c:121-156 | The mapped page has the flags' write and execute rights and the physical target; user access is granted exactly when the flags ask for it and every table already on the walk grants it. |
| Vmm.UserPageUnderKernelTable | src/kernel/memory/vmm.c:46-67 | In an empty address space, one table linked without the user flag leaves a page mapped below it with that flag closed to user code. |
| Vmm.Vmm.LookUp | src/kernel/memory/vmm.c:174-191 | Looking up one level without creating: an absent entry means the address is not mapped. |
| Vmm.Vmm.UnmapPage | src/kernel/memory/vmm.c:166-199 | Returns true if and only if the page was mapped, and then removes the translation of exactly that page; otherwise nothing changes. |
| Vmm.MapThenUnmapRestores | src/kernel/memory/vmm.c:102-199 | Mapping an unmapped page and unmapping it again restores the translation of every address. |
| Vmm.TableFramesAreDistinct | src/kernel/memory/vmm.c:110-153 | Tables reached by two walks are the same frame if and only if level and address prefix agree, and each is marked used. |
| Ranges.StepArithmetic | src/kernel/memory/vmm.c:51-91 | Each large or single step of the loop stays inside the range and leaves the rest page aligned, so it ends exactly at the end. |
| Ranges.LargeStepDone | src/kernel/memory/vmm.c:81-84 | A 2 MiB step maps the next 512 pages of the range as asked and changes no other translation. |
| Ranges.PageStepDone | src/kernel/memory/vmm.c:86-90 | A single-page step maps the next page of the range as asked and changes no other translation. |
| Ranges.MapLarge | src/kernel/memory/vmm.c:52-84 | The 2 MiB branch: succeeds if and only if the tables missing above the leaf have their pages, and takes exactly those; on success progress by one block, on failure no translation changed and memory is exhausted. |
| Ranges.MapSmall | src/kernel/memory/vmm.c:86-90 | The single-page branch: succeeds if and only if the missing tables have their pages; on success progress by one page. |
| Ranges.NextFrames | src/kernel/memory/vmm.c:51-91 | Each step takes exactly the pages of the tables that its block lacks before the loop and shares with no earlier block. |
| Ranges.MapRange | src/kernel/memory/vmm.c:41-94 | Succeeds if and only if at least as many pages are free as the range lacks tables, each counted once, and then takes exactly that many. On success every page of the range translates to its physical page with the flags' rights and nothing outside changes; on failure some first part is mapped and memory is exhausted. |
| Ranges.PagesMapped | src/kernel/memory/vmm.c:86-90 | What mapping the first n pages of a range one by one does to every address. |
| Ranges.RangeRefinesPages | src/kernel/memory/vmm.c:41-94 | The range mapping and the page-by-page mapping give every address the same target and the same rights, and outside the range both change nothing. |
| Boot.MapHhdm | src/kernel/memory/vmm.c:201-219 | After the loop exactly the memory map's ranges are mapped at their offset addresses; it panics if and only if fewer pages are free than the tables they lack. |
| Boot.MapSection | src/kernel/memory/vmm.c:221-235 | Adds exactly one section's pages to what is mapped; fails if and only if fewer pages are free than the tables they lack. |
| Boot.MapKernel | src/kernel/memory/vmm.c:237-242 | Adds exactly the four sections with their flags; fails if and only if fewer pages are free than the tables they lack. |
| Boot.MapFrameBuffer | src/kernel/memory/vmm.c:245-262 | Adds exactly the framebuffer's pages, also when they coincide with an entry already mapped; fails if and only if fewer pages are free than the tables they lack. |
| Boot.Init | src/kernel/memory/vmm.c:264-284 | Succeeds if and only if one page for the root and one for each table of the boot ranges are free, and returns false if and only if no page is free; on success the new address space maps exactly the boot ranges and nothing else. |
| Boot.LayoutIsCompatible | src/kernel/memory/vmm.c:201-262 | For aligned, disjoint maps the boot ranges are pairwise disjoint or equal, which discharges the range mapping's demand that no large page is in the way. |
| Boot.HhdmIsIdentity | src/kernel/memory/vmm.c:201-219 | Every byte p of every entry is what the address offset + p translates to, writable and executable for the kernel only. |
| Boot.KernelIsMapped | src/kernel/memory/vmm.c:221-242 | Every section address translates to physical base plus its distance from the virtual base, with the section's rights, and none is both writable and executable there. |
| Boot.FrameBufferIsMapped | src/kernel/memory/vmm.c:245-262 | Every framebuffer byte translates to its physical address, writable for the kernel only. |
| Boot.MappedIffCovered | src/kernel/memory/vmm.c:264-284 | A canonical address is mapped if and only if some boot range covers it. |
| Boot.MappedMeans | src/kernel/memory/vmm.c:201-284 | Spelled out by bytes: a canonical address is mapped if and only if it is the offset address of an entry's byte, or in the pages of a section or of the framebuffer. |
| Boot.LargeIffBlock | src/kernel/memory/vmm.c:52-84 | A canonical address lies under a 2 MiB page if and only if some boot range covers it and maps its block by one. |
| Boot.DevicePageIsReady | src/arch/x86_64/lapic.c:43-44 | What vmm_map_page demands of an offset address after boot holds if and only if no memory map entry and no framebuffer fills the 2 MiB block around it. |
| Boot.IoApicUnderLargePage | src/arch/x86_64/drivers/ioapic.c:23-24 | A reserved 2 MiB entry over the I/O APIC's registers fills their block. |
| Boot.WritableAndExecutable | src/kernel/memory/vmm.c:201-262 | A canonical address is both writable and executable if and only if it is the offset address of a memory map entry or lies in the framebuffer's pages. |
| Boot.TextIsWritableThroughAlias | src/kernel/memory/vmm.c:215-239 | Where an entry holds the physical page of a text address, the page's offset address translates to the same byte, writable, while the text address is not. |
| KernelInit.HeapRegionIsClear | src/kernel/init.c:57-77 | After vmm_init no large page lies at or above the heap's start, as heap growth requires. |
| KernelInit.AllocBackBuffer | src/drivers/screen/screen.c:450-458 | The back buffer's allocation fails exactly when there is no free run of that many pages or none are asked for; otherwise exactly one free run becomes used and every other page stays as it was. |
| KernelInit.InitMemory | src/kernel/init.c:41-78 | The memory steps of kernel_init in order: a valid heap over an address space that maps exactly the boot ranges, with every page of the kernel image and of the bitmap owned by the boot image. It comes up if and only if the allocator can be set up, the back buffer finds its run, and the free pages suffice for the back buffer, the root and the tables of the boot ranges. |
| KernelInit.ReservedStay | src/kernel/init.c:41-78 | Kernel and bitmap pages keep their owner over every change in which only pages handed to callers lose theirs, which every allocation, release, mapping and heap call is. |
| KernelMemory.MemorySystem.constructor | src/kernel/init.c:75-78 | The system after heap_init, with no page handed out, satisfies the joint invariant. |
| KernelMemory.MemorySystem.AllocPage | src/kernel/memory/pmm.c:255-288 | Keeps the joint invariant; the caller gets a page nobody owned, and nothing changes if and only if every page is owned. |
| KernelMemory.MemorySystem.AllocPages | src/kernel/memory/pmm.c:290-336 | Keeps the joint invariant; the caller gets a run of pages nobody owned, and nothing changes only when all such runs straddle one page. |
| KernelMemory.MemorySystem.FreePage | src/kernel/memory/pmm.c:338-367 | Freeing a held page succeeds, keeps the joint invariant and changes nothing but that page's owner. |
| KernelMemory.MemorySystem.FreePages | src/kernel/memory/pmm.c:369-398 | Freeing held pages succeeds, keeps the joint invariant and changes nothing but those pages' owners. |
| KernelMemory.RemapKeepsPages | src/kernel/memory/vmm.c:102-199 | Mapping or unmapping one page outside the heap leaves every heap page mapped to the frame it owns. |
| KernelMemory.MemorySystem.MapPage | src/kernel/memory/vmm.c:102-164 | Mapping a page that is none of the heap's keeps the joint invariant and leaves blocks, payloads and held pages alone; it succeeds if and only if the pages no one owns suffice for the missing tables, and then remaps exactly that page. |
| KernelMemory.MemorySystem.UnmapPage | src/kernel/memory/vmm.c:166-199 | Unmapping a page that is none of the heap's keeps the joint invariant, removes exactly that page's translation if it had one, and leaves all else alone. |
| KernelMemory.MemorySystem.Perform | src/kernel/memory/heap.c:61-159 | Every call of the page allocator, the page tables or the heap keeps the joint invariant and does what it should: only held pages may lose their owner, calls that are not to the heap leave its blocks and payloads alone, and a heap request gets its block if and only if one fits or the unowned pages suffice for the growth and its tables. |
| KernelMemory.MemorySystem.Run | src/kernel/init.c:80-95 | After any sequence of such calls, in any order, the joint invariant holds, and each state of the run follows from the one before by what that call does. |
| KernelMemory.BootAndRun | src/kernel/init.c:41-95 | The kernel comes up exactly under the condition of `KernelInit.InitMemory`, and from there the joint invariant holds after any sequence of calls and each state follows from the one before by what that call does. |
| KernelMemory.FramesAreApart | src/kernel/memory/vmm.c:110-153 | Under the joint invariant a table on any walk, the frames of two different heap pages, a page of the kernel image or the bitmap and a page held by a caller are five different frames, all marked used. |
| Lists.InsertKeepsList | src/include/klib/list.h:24-31 | Linking a node between two neighbours of a well-formed circle gives the circle with the node inserted there. |
| Lists.RemoveKeepsList | src/include/klib/list.h:41-50 | Unlinking an element gives the circle without it; its neighbours are those its own links name. |
| Lists.OtherListKept | src/include/klib/list.h:24-50 | A list none of whose nodes is touched is still the same list. |
| Lists.NextIs | src/include/klib/list.h:52-58 | Following next from the head visits the elements in order and returns to the head exactly at the end. |
| Lists.ListMemory.InitListHead | src/include/klib/list.h:19-22 | The node becomes an empty list; no other link changes. |
| Lists.ListMemory.Add | src/include/klib/list.h:33-35 | Puts the node first; links outside the list are unchanged. |
| Lists.ListMemory.AddTail | src/include/klib/list.h:37-39 | Puts the node last; links outside the list are unchanged. |
| Lists.ListMemory.Del | src/include/klib/list.h:41-50 | Removes exactly that element and clears its links; links outside the list are unchanged. |
| Lists.ListMemory.IsEmpty | src/include/klib/list.h:52-54 | True if and only if the list has no element. |
| Lists.ListMemory.IsSingular | src/include/klib/list.h:56-58 | True if and only if the list has exactly one element. |
| HeapBlocks.EveryAddressInOneBlock | src/kernel/memory/heap.c:52-58 | Tiling spelled out: an address is inside the heap if and only if it lies in a block, and then in exactly one. |
| HeapBlocks.PayloadsAreApart | src/kernel/memory/heap.c:70-83 | No payload byte of one block lies in another block, header included. |
| HeapBlocks.TakeKeepsHeap | src/kernel/memory/heap.c:69-83 | Taking and splitting a free block keeps tiling, alignment and the agreement of free flags with the list. |
| HeapBlocks.TakeIsExact | src/kernel/memory/heap.c:69-83 | The taken block was free and is live, exceeds the request by less than a header and 16 bytes, and every other live block and every boundary stay. |
| HeapBlocks.RemainderIsNext | src/kernel/memory/heap.c:70-83 | A block with 48 bytes to spare is cut: the remainder is first on the free list and the first fit of the next request it can hold; any other block is handed out whole. |
| HeapBlocks.ShrinkKeepsHeap | src/kernel/memory/heap.c:139-148 | Cutting a live block keeps tiling, alignment and the agreement of free flags with the list. |
| HeapBlocks.ShrinkMeans | src/kernel/memory/heap.c:139-148 | After a shrink the block is live and below the rounded size plus 48; if that needed a cut, the remainder is a free block first on the list, and otherwise nothing changed. |
| HeapBlocks.ReleaseKeepsHeap | src/kernel/memory/heap.c:94-108 | Releasing a block keeps tiling, alignment and the agreement of free flags with the list. |
| HeapBlocks.LastFreedIsNext | src/kernel/memory/heap.c:94-108 | The block freed last is the first fit of the next request it can hold. |
| HeapBlocks.ExpandKeepsHeap | src/kernel/memory/heap.c:52-58 | Growing by one block at the end keeps tiling, alignment and the agreement of free flags with the list. |
| HeapBlocks.DoubleReleaseIsNoOp | src/kernel/memory/heap.c:101-103 | Releasing a block twice before reuse is releasing it once. |
| Heap.Heap.constructor | src/kernel/memory/heap.c:26-29 | The heap starts empty at the page-aligned heap symbol. |
| Heap.HeapFramesAreDistinct | src/kernel/memory/heap.c:40-51 | Different heap pages translate to different frames, all owned and none of them a page table. |
| Heap.Heap.MapOne | src/kernel/memory/heap.c:40-49 | One growth page gets a fresh frame owned by that page alone and mapped there; addresses below the heap's end keep their translation; it succeeds if and only if there is a free page for the frame and one for each missing table. |
| Heap.Heap.MapPages | src/kernel/memory/heap.c:40-51 | All growth pages are mapped and owned if and only if there is a free page for each and for each table they lack; otherwise the heap's own pages are intact. |
| Heap.Heap.ExpandHeap | src/kernel/memory/heap.c:31-59 | Succeeds if and only if the growth has its frames; then the heap has one more free block at its end, last on the list, and otherwise its blocks are as before. |
| Heap.PageGrown | src/kernel/memory/heap.c:40-51 | Each growth page needs one frame and one for each table its address lacks after the pages before it. |
| Heap.ExpandThenFits | src/kernel/memory/heap.c:87-91 | After growing for a request that fitted nowhere, the new block is its first fit, so there is at most one recursive call. |
| Heap.Heap.FindFit | src/kernel/memory/heap.c:68-69 | The list walk stops at the first block in list order that is large enough. |
| Heap.Heap.CutBlock | src/kernel/memory/heap.c:71-80 | The new header, its link at the front of the list and the shortened block, on the whole state. |
| Heap.Heap.TakeBlock | src/kernel/memory/heap.c:70-83 | Unlinking, splitting and marking the block is the abstract take and overwrites no live payload. |
| Heap.Heap.Kmalloc | src/kernel/memory/heap.c:61-92 | Takes the first fit, growing once if there is none; every live payload keeps its bytes and translations below the old end are unchanged. A non-zero request is not NULL if and only if some free block is large enough or the growth has its frames. |
| Heap.AllocatedIsSound | src/kernel/memory/heap.c:61-92 | Every returned pointer is a 16-byte aligned payload inside the heap that was not live before, with less than a header and 16 bytes to spare, and all other live blocks are untouched. |
| Heap.Heap.Kfree | src/kernel/memory/heap.c:94-108 | Releases exactly that block, also for a pointer freed before; NULL does nothing. |
| Heap.Heap.Kcalloc | src/kernel/memory/heap.c:110-119 | An allocation of the product as size_t computes it, not NULL exactly when that size can be served, zero over that whole length, with every other live payload kept. |
| Heap.CallocHoldsRequest | src/kernel/memory/heap.c:110-119 | The block holds all num times size bytes if and only if that product is below 2^64. |
| Heap.CallocCanWrap | src/kernel/memory/heap.c:110-119 | 2^60 + 1 elements of 16 bytes ask for 16 bytes, and any block returned is smaller than the request. |
| Heap.Heap.Krealloc | src/kernel/memory/heap.c:121-159 | Keeps the first min(old block size, rounded new size) bytes and every other live payload; cuts in place, or moves exactly when the larger size can be served, or else leaves the block live and unchanged. |
| Heap.ReallocatedMeans | src/kernel/memory/heap.c:121-159 | By cases of the new size: 0 releases the block; one that fits keeps the pointer and leaves less than 64 bytes above it; a larger one returns another live block that holds it, with the old block free and first on the list, or NULL and no change. |
| Heap.Heap.MoveBlock | src/kernel/memory/heap.c:152-158 | Allocates, copies the whole old payload and releases the old block, if and only if the new size can be served; failure leaves everything as it was. |
| Heap.PayloadsDisjoint | src/kernel/memory/heap.c:152-158 | The new payload and the old one do not meet, which is what memcpy demands of its caller. |
| Heap.Heap.ShrinkInPlace | src/kernel/memory/heap.c:139-150 | Cuts off the rest as a free block when it is worth one; the kept bytes and all other payloads are unchanged. |
| Context.Cpu.SaveRegisters | src/arch/x86_64/asm/cpu_switch_context.asm:15-21 | The six pushes leave, at the new stack pointer, the frame the pops and the return read back, with the registers and the return address as they were; no other word changes. |
| Context.Cpu.RestoreRegisters | src/arch/x86_64/asm/cpu_switch_context.asm:29-38 | The six pops and the return read the seven words of the frame at the stack pointer, in the layout the pushes left. |
| Context.Cpu.SwitchContext | src/arch/x86_64/asm/cpu_switch_context.asm:14-38 | The whole switch on registers and memory. |
| Context.Cpu.Trampoline | src/arch/x86_64/asm/thread_trampoline.asm:9-13 | Enters the wrapper with r15 and r14 as its first two arguments, pushing only the return address. |
| Context.Cpu.SetupStack | src/kernel/thread/thread.c:20-32 | Leaves at the returned address the frame that resumes at the trampoline with the entry point in r15 and the argument in r14; no word outside the stack's top changes. |
| Context.SetupHoldsFrame | src/kernel/thread/thread.c:20-32 | The words laid out are exactly the frame the switch pops: entry in r15, argument in r14, the trampoline as return address; nothing outside is written. |
| Context.FrameWords | src/arch/x86_64/asm/cpu_switch_context.asm:15-38 | The saved frame word by word: r15, r14, r13, r12, rbx, rbp and the return address from the stack pointer upwards. |
| Context.ParkedStays | src/arch/x86_64/asm/cpu_switch_context.asm:14-38 | A step of another thread leaves a parked thread's saved frame and stack pointer as they are. |
| Context.ResumingRestores | src/arch/x86_64/asm/cpu_switch_context.asm:26-38 | Switching to a parked thread gives it exactly the registers, stack pointer and return address it parked. |
| Context.SwitchAwayAndBack | src/arch/x86_64/asm/cpu_switch_context.asm:14-38 | For every run between switching away from a thread and back to it, in which others write only their own memory, its callee-saved registers, stack pointer and return address are restored. |
| Context.FirstSwitchEnters | src/arch/x86_64/asm/thread_trampoline.asm:9-13 | For every run from a thread's set-up to its first switch, it starts at the trampoline with its entry point in r15 and its argument in r14 on an empty stack. |
| SchedSpec.InitialIsOk | src/kernel/sched/sched.c:75-96 | The scheduler starts with the main thread alone, in a well-formed ring. |
| SchedSpec.StepKeepsOk | src/kernel/sched/sched.c:23-73 | Every tick, exit, creation and start keeps: the ring holds each started, not terminated thread exactly once, the current one and main among them, and slices are at most 10. |
| SchedSpec.RunKeepsOk | src/kernel/sched/sched.c:23-73 | The same in every state of every run. |
| SchedSpec.TerminatedStaysOut | src/kernel/thread/thread.c:35-51 | In every run a terminated thread is neither in the ring nor current until it is started again. |
| SchedSpec.StepBringsCloser | src/kernel/sched/sched.c:31-51 | No step without an arrival moves a waiting thread further away, and each tick is paid for by a shrinking bound. |
| SchedSpec.BoundedWaiting | src/kernel/sched/sched.c:23-73 | With no thread started meanwhile, a thread at ring distance k has become current by the time 10 k ticks have passed, in every run. |
| SchedSpec.TurnLastsTenTicks | src/kernel/sched/sched.c:60-73 | In every run, once a tick has switched away from a thread, its next turn lasts exactly 10 ticks unless it exits: it stays current through nine, and the tenth hands over when another thread is queued. |
| SchedSpec.FirstTurnLastsTenTicks | src/kernel/sched/sched.c:60-96 | The same for the main thread's first turn after sched_init. |
| SchedSpec.StartGoesLast | src/kernel/thread/thread.c:110-123 | A started thread goes to the end of the ring, with every queued thread from the current one on before it; a queued one stays where it is. |
| Sched.Sched.constructor | src/kernel/sched/sched.c:75-96 | sched_init leaves the main thread alone in the queue, current, with a full slice. |
| Sched.Sched.PickNext | src/kernel/sched/sched.c:26-51 | The link-following choice is the successor in the ring, skipping the queue head; a terminated current thread leaves the queue. |
| Sched.Sched.Schedule | src/kernel/sched/sched.c:23-58 | Performs the abstract switch, and the processor switches stacks exactly when the current thread changes. |
| Sched.Sched.OnTick | src/kernel/sched/sched.c:60-73 | Performs the abstract tick: one unit off the slice, or a refill and a switch. |
| Sched.Sched.Exit | src/kernel/thread/thread.c:35-51 | A returning thread marks itself terminated, leaves the ring and is not current any more. |
| Sched.Sched.Create | src/kernel/thread/thread.c:61-96 | Without a name, an entry point or either allocation it returns NULL and changes nothing, giving the structure back when only the stack is missing; otherwise the new thread is known but not queued, with its frame laid out for exactly its entry point and argument. |
| Sched.Sched.Start | src/kernel/thread/thread.c:110-123 | A thread that is not queued joins at the tail; a terminated one first gets a fresh frame and node. |
| Sched.SwitchIsStep | src/kernel/sched/sched.c:53-57 | The scheduler's call of the switch is the switch step of the context runs, so their results apply. |
| Sched.SetupIsStep | src/kernel/thread/thread.c:20-32 | The memory thread_create and thread_start leave is the set-up step of the context runs. |
| Threads.SystemStarts | src/kernel/sched/sched.c:75-96 | After sched_init the joint invariant of scheduler and machine holds. |
| Threads.StepKeepsSystem | src/kernel/sched/sched.c:23-73 | Every tick, exit, creation, start and computation keeps: scheduler and machine agree on the current thread, every other thread that has not terminated is parked on its own stack, and one that has not run yet waits with exactly what it was created with. |
| Threads.RunKeepsSystem | src/kernel/sched/sched.c:23-73 | The same in every state of every run. |
| Threads.FirstRunEntersWrapper | src/kernel/thread/thread.c:45-51 | In every run, when the scheduler first switches to a thread since its creation or restart, the trampoline enters thread_entry_wrapper with exactly the entry point and argument given to thread_create. |
| Threads.OnTickSteps | src/kernel/sched/sched.c:60-73 | The scheduler's tick, run on the real queue and processor, is a tick of the joint runs. |
| Threads.ExitSteps | src/kernel/thread/thread.c:35-51 | A returning thread's termination is an exit of the joint runs. |
| Threads.CreateSteps | src/kernel/thread/thread.c:61-96 | thread_create is a creation of the joint runs with exactly its entry point and argument, or changes nothing. |
| Threads.StartSteps | src/kernel/thread/thread.c:110-123 | thread_start is a start of the joint runs. |
| Mem.CopyEnds | src/klib/mem.c:17-41 | After the overlapping head and tail stores the first 8 and the last 8 bytes are copied and nothing beyond n is written. |
| Mem.CopyWords | src/klib/mem.c:51-71 | The 4-word and 1-word loops copy exactly the words they are given and leave no gap to the tail. |
| Mem.Memcpy | src/klib/mem.c:13-74 | For disjoint buffers, every length and every alignment, exactly the n bytes are copied. |
| Mem.FillEnds | src/klib/mem.c:78-101 | After the head and tail stores the first 8 and the last 8 bytes are set and nothing beyond n is written. |
| Mem.FillWords | src/klib/mem.c:107-119 | The word loops set exactly the words they are given and leave no gap to the tail. |
| Mem.RepeatedBytes | src/klib/mem.c:103-105 | The word built by shifting holds the byte in all eight positions. |
| Mem.Memset | src/klib/mem.c:76-122 | For every length and alignment exactly the n bytes are set. |
| Printers.ReverseInPlace | src/klib/string.c:56-67 | The swapping loop reverses exactly the first n characters. |
| Printers.DigitsRoundTrip | src/klib/math.c:6-36 | Digits read back in the same base give the number, for every number and base up to 16. |
| Printers.DigitsAreShortest | src/klib/math.c:6-36 | The digits are 0 to 9 and A to F without leading zeros. |
| Printers.DigitIsListed | src/klib/math.c:6-36 | Each digit of a base up to 16 is the character at its place in 0 to 9 and A to F. |
| Printers.DecimalRoundTrip | src/klib/string.c:30-68 | The signed decimal text read back gives the number, for every integer. |
| Printers.DigitsLength | src/klib/string.c:30-68 | A number below base^k takes at most k digits, so the printers' buffers suffice. |
| Printers.IntToString | src/klib/string.c:30-68 | For every 64-bit signed value, the minimum included, the buffer holds its decimal text and a NUL. |
| Printers.IntToHexString | src/klib/math.c:6-36 | For every 64-bit unsigned value the buffer holds its upper-case hexadecimal text and a NUL. |
| Format.Kvsnprintf | src/drivers/screen/screen.c:245-311 | Writes exactly the first size - 1 characters of the unbounded formatting and a NUL, nothing beyond size, and returns their number. |
| Format.EmitConversion | src/drivers/screen/screen.c:258-305 | One conversion's text, cut at the limit, through the same printers the kernel calls. |
| Format.ConsumeFormatArgs | src/drivers/screen/screen.c:314-344 | Skips exactly the arguments the formatter uses, if and only if every conversion of the format is complete. |
| Format.LonePercent | src/drivers/screen/screen.c:314-344 | The format of one percent sign prints nothing and is not complete. |
| Format.FlushSegment | src/drivers/screen/screen.c:347-369 | Prints the first 1023 characters of the segment as formatted, cut at 1023, and passes on the remaining arguments if and only if that part is complete. |
| Format.Kprintf | src/drivers/screen/screen.c:372-398 | For every format the character loop prints the segments between colour markers, each colour taken from the next argument, if and only if every segment is complete as far as it fits the buffer. |
| FormatItems.RenderIsPass | src/drivers/screen/screen.c:245-311 | On the text of a list of plain characters and conversions, known or not, the formatter is one pass over that list, in which exactly d, i, u, x, p, s and c read an argument. |
| FormatItems.ConvertIsShown | src/drivers/screen/screen.c:258-344 | The formatter shows and skips what that list says, for every character and every modifiers. |
| FormatItems.ShownMeans | src/drivers/screen/screen.c:258-305 | d, i and u read back as the argument's signed value of 32 bits, or of 64 after l or z; x and p read back as its 64 bits; s shows its string, (null) without one; c shows the low byte; a character that reads nothing shows itself. |
| FormatItems.ModifiersMean | src/drivers/screen/screen.c:253-257 | The modifiers are exactly l, z and h. |
| FormatItems.ArgumentsInOrder | src/drivers/screen/screen.c:314-344 | Reading an argument takes the first and leaves the rest in order. |
| FormatItems.ColorsAreFound | src/drivers/screen/screen.c:379-391 | The first colour marker the loop sees in the text is the first colour of the list, when no percent conversion precedes a C. |
| FormatItems.ParseIs | src/drivers/screen/screen.c:245-311 | Every complete format is the text of its list of characters, conversions and colours, and that list has no percent conversion before a C exactly when the format has none. |
| FormatItems.ItemsAreComplete | src/drivers/screen/screen.c:314-344 | The text of every list of such items is a complete format. |
| FormatItems.PrintfIsOnePass | src/drivers/screen/screen.c:372-398 | For every complete format without a percent conversion before a C and with segments under 1024 characters, every conversion shows the argument a single left-to-right pass gives it; the pass is defined by listing the characters d, i, u, x, p, s, c, the modifiers l, z, h and what each shows, and by nothing of the formatter. |
| FormatItems.ClashBreaksFormat | src/drivers/screen/screen.c:379-391 | Among complete formats with short segments, the segments are complete if and only if no percent conversion precedes a C. |
| FormatItems.PercentPercentC | src/drivers/screen/screen.c:379-391 | The format of two percent signs and a C is complete and short, and its first segment is not. |
| Keyboard.MoveFirst | src/include/klib/list.h:37-50 | Moving the first node of one list to the tail of another keeps both lists well formed and apart. |
| Keyboard.Keyboard.constructor | src/drivers/keyboard.c:90-99 | All 128 pool events are on the free list and nothing is pending. |
| Keyboard.Keyboard.ProcessScancode | src/drivers/keyboard.c:47-88 | Performs the abstract decoding step and keeps the pool partitioned between the two lists. |
| Keyboard.Keyboard.Queue | src/drivers/keyboard.c:78-86 | Appends the character if an event is free, else drops it. |
| Keyboard.Keyboard.GetChar | src/drivers/keyboard.c:115-135 | Returns the oldest pending character, or none, and keeps the pool partitioned. |
| Keyboard.DecoderState | src/drivers/keyboard.c:47-88 | After any events the shift, caps-lock and held-key state is what the scancodes alone determine. |
| Keyboard.PressIsDecoded | src/drivers/keyboard.c:47-88 | A key press gives its character under the shift and caps-lock state the earlier scancodes left, and nothing while the key is held. |
| Keyboard.SpecialCodes | src/drivers/keyboard.c:47-66 | 0x2A and 0x36 press shift, 0xAA and 0xB6 release it, 0x3A counts for caps lock; none of them, and no release, gives a character. |
| Keyboard.LetterCase | src/drivers/keyboard.c:29-75 | A letter key gives the capital exactly when one of shift and caps lock is on, not both. |
| Keyboard.DigitKeys | src/drivers/keyboard.c:29-75 | The digit row in both cases, key by key. |
| Keyboard.SignKeys | src/drivers/keyboard.c:29-75 | The keys for punctuation in both cases, key by key. |
| Keyboard.ControlKeys | src/drivers/keyboard.c:29-75 | Escape, backspace, tab, enter, star and space in every case, and the codes that give nothing. |
| Keyboard.QueueIsFaithful | src/drivers/keyboard.c:47-135 | Over every interleaving, characters returned followed by characters pending are, in order, the decoded key-down edges that arrived while fewer than 128 were pending. |

## Left out

- `memmove`: on overlapping buffers its head and tail stores overwrite source bytes before they are read, so the C contract does not hold of the code.
- `memcmp`: after a word mismatch the bytes of that word are not compared; not part of this model.
- Vmm.Vmm.MapPage: requires that no 2 MiB entry is on the walk, because the code does not look at the size bit; the boot sequence and the heap discharge it, and `Boot.DevicePageIsReady` says when the device drivers' calls do. It also requires a physical address below 2^52 and flags that leave the frame bits alone.
- Vmm.Vmm.UnmapPage: requires that no 2 MiB entry is on the walk, as `Vmm.Vmm.MapPage` does.
- Ranges.MapRange: requires page-aligned starts and a page-multiple length, as every caller passes, no wrap-around, and no existing 2 MiB entry over a page it maps singly.
- Processor caches of translations, `invlpg`, CR3 and the no-execute enable bit: `Translate` is the walk of the tables in memory.
- Several address spaces: a `Vmm` object is one address space, its table root a field instead of an argument.
- The three copies of the get-or-create code in `vmm_map_page` and the two in `vmm_map_range` are the one method `Vmm.Vmm.NextTable`.
- 64-bit words are bounded integers with arithmetic bit operations; wrap-around is written out where the code can meet it (`pmm_free_pages`, `kcalloc`).
- Memory maps whose entries end at the very top of the 64-bit address space: excluded by `PmmInit.NoWrap`.
- Missing boot loader responses other than an empty map and a zero kernel address, and the screen's format checks: panics outside this model; linker symbols and boot loader addresses are parameters.
- PmmInit.Reclaim: the ownership of reclaimed pages and what a second call would do to pages handed out since are not modelled.
- Contents of physical frames other than page tables: heap payload bytes are modelled by virtual address, and writing a block header sets the bytes under it to zero in the model.
- Heap.Heap.Kmalloc: requires that a request that does not fit leaves address space for its growth: the heap's end plus the pages of the growth stays below 2^64, so that no sum in the code wraps.
- Heap.Heap.Kcalloc: requires the same of the product as `Heap.Heap.Kmalloc` of its size.
- Heap.Heap.Krealloc: requires the same of the new size, and a pointer that is NULL or live.
- KernelMemory.MemorySystem.Run: leaves out calls their callers must not make: freeing pages they do not hold, mapping or unmapping the heap's own pages, and requests without address space.
- Pages mapped by a heap growth that then ran out of memory stay mapped beyond the heap's end, as in the code; a later growth maps over them and the old frames stay owned.
- Sched.Sched.Create: the two addresses the allocations return are parameters and the one given back is a result, so that they are heap blocks is not part of this model; nor are thread names and `thread_destroy`.
- The initial time slice of a new thread, which the code does not set, is a parameter of at most 10.
- Termination of another thread, interrupts inside `schedule`, an empty ready queue, and the main thread terminating: scheduler steps are atomic and the main thread stays alive.
- SchedSpec.BoundedWaiting: counts ticks; a thread that exits early only shortens the wait, arrivals during the wait are excluded because each adds a slice.
- Memory is word-wise at byte addresses in `Context`: stack words are whole cells, and unaligned overlapping accesses are not modelled.
- Variadic arguments beyond those given read as zero with no string; `kprint` and everything drawn on the screen are a list of coloured texts.
- Format.ConsumeFormatArgs: stops at the end of an incomplete format, where the code would read on past the terminator; `Format.Kprintf` stops with it.
- The keyboard's port reads, its interrupt acknowledgement and the escape-key panic; `keyboard_getchar`'s waiting loop is one turn.
- ACPI, serial line, PS/2, LAPIC, IOAPIC, GDT and IDT: hardware plumbing with only per-field claims.
