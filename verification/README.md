# A verified model of the kernel's memory core

This project models the memory core of the exokernel in Dafny and proves its central promises for
all inputs and all runs:

- the physical frame allocator, a bump allocator that turns into a bitmap kept inside frames it
  handed out itself (`Regions`, `FrameState`, `FrameRuns`, `Pmm`);
- the four-level page tables, reached through a self-referencing slot, under the walk of section
  4.5 of the Intel SDM, volume 3A (`Paging`, `AddressSpace`, `NewEntry`, `LeafEntry`, `Mapping`,
  `Unmapping`, `Directory`, `Search`, `Vmm`), and address-space isolation over whole runs
  (`AddressRuns`);
- their clients: the range allocator (`VmmWrapper`), the memory part of the boot sequence (`Boot`)
  and the ELF loader (`Bytes`, `ElfImage`, `Launch`, `ElfFile`);
- the multi-core boot protocol (`Smp`) and the lock and interrupt discipline of logging (`Locks`),
  as state machines whose steps are single accesses to shared state, interleaved in any order;
- the bootloader's text console (`Console`), the ACPI interrupt-controller table (`Madt`), and the
  printers and parsers of numbers and of the init file (`Numbers`, `InitFile`); `Positions` is a
  helper about selections from lists.

Machine words are integers below 2^64 with `&`, `|`, `^` and shifts written bit by bit (`Bits`);
physical memory is a sequence of frames of 512 words (`Memory`). Code that changes state in place is
a class with methods, and each method is proved against a relation between the old and the new
state (`GotFrame`, `Released`, `MappedUpTo`, `WindowUpTo`, `UnmappedUpTo`, `Created`, `Image`, ...);
the theorems are then about sequences of such relations. Where such a relation is stated through a
function of its own (the regions of a memory map, the entries collected from a table, the live
ranges, the terminal), lemmas say what that function is in terms of its input alone. A panic that halts a core appears as
`None` or as `halted`.

`PageTables` accesses entries as the code does, through the crafted window addresses; that those
addresses reach the intended entries is the lemma `WindowShowsEntry`. A ghost field `tree` records
for each frame of an address space its directory, level and position; the invariant `VmOk` ties it
to the contents of memory.

## Where the code and its intention part

The model follows the code. These findings are stated as exact conditions:

- `init_pmm` marks the indices below the number of frames handed out, but the bump phase skips the
  last frame of each region: the two agree if and only if the bump phase never left the first
  region (`MarksMatchBump`).
- `kmunmap` computes `size - (4096 - offset)` without a check: it sets out to free the pages wholly
  inside the range if and only if the start is aligned or the range reaches the end of its first
  page (`UnmapCountExact`).
- `free_frame` toggles a bit: a taken frame outside the bitmap is released, a free one becomes taken
  instead, and the allocator breaks if and only if the frame is one of the bitmap's own (`FreeFrame`).
- `search_available` returns the base as soon as an upper entry is empty: the range found is unmapped
  if and only if its part past the end of what that entry covers is, which the code does not look
  at (`FoundFree`); for two pages from page 511, with page 512 mapped, it is not (`FoundOverMapped`).
  For `space_alloc`, which searches from page 1 and at most 511 pages, it always is (`FoundInSlotZero`).
- `kmunmap` of a page that is not mapped hands `free_frame` the address 0, so it is harmless exactly
  where frame 0 lies in no usable region (`FreeFrame`, `PageClearable`).
- `scroll` blanks a single row however far the text moves (`Scroll`).
- `space_free` with the size given to `space_alloc` releases the whole range if and only if the size
  is a multiple of the page size (`FreeReleasesAll`).
- `convert_to_arch_flags` puts the execute flag at bit 63, which `kmmap` ors into entries: the
  result is a flag word `kmmap` may be given if and only if that flag is not set (`ConvertedFlags`).
- `lock_ints`/`unlock_ints` restore the interrupt state if and only if they were entered inside a
  lock or with interrupts on; at level 0 with interrupts off the outermost unlock turns them on
  (`BalancedRestores`).
- `parse_MADT` stores as the id of an I/O APIC the byte at offset 1, the length of the entry, not
  the id at offset 2: right if and only if the two are equal, wherever the entry is (`IoApicIdIsLength`).
- `align` wraps to 0 above the last page boundary of the address space (`AlignRoundsUp`).

## Model

| member | source | states |
|---|---|---|
| `Bits.FieldIsLow` | src/kernel/include/utils/macros.h:17-19 | `SHIFTR` with its mask of ones is the low n bits of the shifted word |
| `Bits.FlipBit` | src/arch/x86_64/src/pmm.c:39-42 | xor with a shifted one toggles that bit and no other |
| `Bits.TestBit` | src/arch/x86_64/src/pmm.c:76-77 | and with a shifted one is non-zero exactly when the bit is set |
| `Bits.AllOnes` | src/arch/x86_64/src/pmm.c:71-72 | a word equals the all-ones constant of the scan exactly when no bit of it is clear |
| `Regions.IndexOfFrameAt` | src/arch/x86_64/src/pmm.c:78-94 | decoding an index below the frame count and encoding the frame gives the index back, over any disjoint regions |
| `Regions.FrameAtIndexOf` | src/arch/x86_64/src/pmm.c:181-200 | encoding any frame of a region and decoding gives the frame back; with the row above, a bijection |
| `FrameState.FlipTakes` | src/arch/x86_64/src/pmm.c:39-42 | toggling bit i changes exactly whether the i-th frame is taken |
| `FrameState.FlipThenClear` | src/arch/x86_64/src/pmm.c:86-89 | toggling a free bit and zero-filling that frame allocates exactly it: the fill cannot reach a bitmap word |
| `FrameState.FlipReleases` | src/arch/x86_64/src/pmm.c:192-196 | toggling a used bit outside the bitmap's own frames releases exactly that frame |
| `FrameState.BumpTakesNext` | src/arch/x86_64/src/pmm.c:52-66 | advancing the bump count of a region takes exactly its next frame, which was free |
| `Pmm.BumpGot` | src/arch/x86_64/src/pmm.c:52-66 | with the frame zeroed, that is one hand-out and keeps the allocator's invariant |
| `FrameState.MarksMatchBump` | src/arch/x86_64/src/pmm.c:119-120 | the marked indices are those of the frames handed out if and only if the bump phase stayed in region 0 |
| `FrameState.MarkedThenSwitched` | src/arch/x86_64/src/pmm.c:103-122 | the cleared and marked bitmap describes the same taken frames as the bump counters did |
| `FrameState.GetThenFreeRestores` | src/arch/x86_64/src/pmm.c:175-202 | getting a frame and freeing it restores the taken set and every bitmap word |
| `FrameState.FlipMarks` | src/arch/x86_64/src/pmm.c:192-196 | toggling a clear bit, as freeing a free frame does, makes exactly that frame taken |
| `FrameState.FlipBreaks` | src/arch/x86_64/src/pmm.c:192-196 | toggling the bit of a frame of the bitmap ends the allocator's invariant |
| `FrameRuns.WritesKeepTaken` | src/arch/x86_64/src/pmm.c:87-88 | writes that spare the bitmap's frames, as all users' writes to their own frames do, keep the taken set |
| `FrameRuns.StaysTaken` | src/arch/x86_64/src/pmm.c:49-143 | in every run, across both phases and the switch, a taken frame stays taken until it is freed |
| `FrameRuns.NoDoubleHandOut` | src/arch/x86_64/src/pmm.c:49-143 | no frame is handed out twice in a run without a free of it in between |
| `FrameRuns.HandOutIsClean` | src/arch/x86_64/src/pmm.c:63-66 | what `GetFrame` promises, read off a run: every frame handed out lies in a usable region, is all zero, and is no part of the bitmap |
| `Pmm.UsableIsTypeOne` | src/arch/x86_64/src/pmm.c:151-151 | the type test with `&` and `^` holds exactly for type 1 |
| `Pmm.UsableCollected` | src/arch/x86_64/src/pmm.c:163-168 | the recorded regions are the entries of type 1, each once, in the order of the map, with their base and length |
| `Pmm.ManagedIsUsable` | src/arch/x86_64/src/pmm.c:159-173 | a frame may be handed out if and only if its 4096 bytes lie in an entry of type 1 |
| `Pmm.AlignRoundsUp` | src/arch/x86_64/src/pmm.c:27-32 | `align` gives the next page boundary, and 0 exactly past the last one |
| `Pmm.FrameAllocator.SetMemoryMap` | src/arch/x86_64/src/pmm.c:145-149 | the memory map is recorded |
| `Pmm.FrameAllocator.GetSizeInBits` | src/arch/x86_64/src/pmm.c:159-173 | the usable regions are recorded in order and the result is their number of frames; nothing is taken yet |
| `Pmm.FrameAllocator.FlipFrame` | src/arch/x86_64/src/pmm.c:39-42 | one bit of the bitmap is toggled and no other word of memory changes |
| `Pmm.FrameAllocator.ClearFrame` | src/arch/x86_64/src/pmm.c:63-64 | the fill through the window zeroes the frame and nothing else |
| `Pmm.FrameAllocator.NextBumpFrame` | src/arch/x86_64/src/pmm.c:52-58 | the loop stops at the first region with a frame left before its last |
| `Pmm.FrameAllocator.GetFrameWithoutBitmap` | src/arch/x86_64/src/pmm.c:51-68 | the bump phase hands out that region's next frame, free and zeroed |
| `Pmm.FrameAllocator.GetFrameFromBitmap` | src/arch/x86_64/src/pmm.c:69-96 | the bitmap phase hands out the frame with the least free index, zeroed |
| `Pmm.FrameAllocator.FirstClearBit` | src/arch/x86_64/src/pmm.c:75-77 | the scan of a word that is not full ends at its lowest clear bit |
| `Pmm.FrameAllocator.ClearBitmap` | src/arch/x86_64/src/pmm.c:112-113 | all nframes / 64 + 1 words of the bitmap become zero and no frame outside the bitmap changes |
| `Pmm.FrameAllocator.MarkBelow` | src/arch/x86_64/src/pmm.c:119-120 | exactly the indices below the count become used |
| `Pmm.FrameAllocator.FillLocations` | src/arch/x86_64/src/pmm.c:124-140 | each region's location holds its base, its length and the number of frames before it |
| `Pmm.FrameAllocator.FlipMatching` | src/arch/x86_64/src/pmm.c:181-200 | the lookup toggles the bit of the address's frame once, and nothing for an address in no region |
| `Pmm.FrameAllocator.FindFreeIndex` | src/arch/x86_64/src/pmm.c:70-79 | the two scans find the least free index of the complete words, and none exactly when all are used |
| `Pmm.FrameAllocator.DecodeIndex` | src/arch/x86_64/src/pmm.c:82-94 | the region-subtracting loop ends at the address of the frame with that index |
| `Pmm.FrameAllocator.GetFrame` | src/arch/x86_64/src/pmm.c:49-100 | a free, zeroed, aligned frame becomes taken and no other frame changes but the bitmap's; the bump phase takes the next frame of the first region with one left before its last; the bitmap phase takes the least free index; each fails only when it has none left |
| `Pmm.FrameAllocator.InitPmm` | src/arch/x86_64/src/pmm.c:103-143 | the bitmap takes over with the same frames taken |
| `Pmm.FrameAllocator.FreeFrame` | src/arch/x86_64/src/pmm.c:175-202 | whatever the low address bits: a taken frame is released, a free one becomes taken, an address in no region changes nothing, and the allocator stays valid if and only if the frame is not the bitmap's |
| `Pmm.LeastIndex` | src/arch/x86_64/src/pmm.c:71-79 | the first clear bit of the first word that is not full is the least free index |
| `Paging.MakeEntryFields` | src/arch/x86_64/src/vmm.c:47-48 | an entry `frame \| flags \| 1` is non-zero and read by the hardware as present, not large, and pointing at that frame |
| `Paging.MakeEntryLow` | src/arch/x86_64/src/vmm.c:47-48 | below the address the entry has the flags and the present bit |
| `Paging.AddressFields` | src/arch/x86_64/src/vmm.c:37-41 | the five `SHIFTR` fields of an address are its positional parts |
| `Paging.CraftAddrFields` | src/arch/x86_64/src/vmm.c:27-29 | `craft_addr` of in-range parts is their positional sum and its fields are the parts again |
| `Paging.WindowShowsEntry` | src/arch/x86_64/src/vmm.c:46-65 | recursive-window theorem: with slot 50 on its own root, the hardware walk of the crafted address ends in the table the walk for the page reads at that level, at that page's entry, for all four levels |
| `AddressSpace.TableAtIsNode` | src/arch/x86_64/src/vmm.c:45-65 | below a private slot, walks only meet the directory's own tables, each at its place |
| `AddressSpace.TableUnique` | src/arch/x86_64/src/vmm.c:45-65 | no two tables play the same role |
| `AddressSpace.SameTablesOk` | src/arch/x86_64/src/pmm.c:87-88 | handing out or filling frames that are no tables keeps the address spaces' invariant |
| `NewEntry.LinkedOk` | src/arch/x86_64/src/vmm.c:47-48 | linking a fresh zeroed frame from an empty entry keeps the invariant |
| `NewEntry.LinkedTranslate` | src/arch/x86_64/src/vmm.c:47-70 | such a link changes no translation outside the window, except that a lowest-level one maps the page it was made for, which faulted |
| `NewEntry.UntouchedDirectory` | src/arch/x86_64/src/vmm.c:171-184 | memory changes outside a directory's and the bootloader's tables change none of its translations, those through slot 50 included |
| `NewEntry.NoForeignTable` | src/arch/x86_64/src/vmm.c:171-184 | no walk of one directory, through whatever slots, reads a table private to another |
| `LeafEntry.LeafChangedOk` | src/arch/x86_64/src/vmm.c:342-342 | replacing or clearing a lowest-level entry keeps the invariant |
| `LeafEntry.LeafTranslate` | src/arch/x86_64/src/vmm.c:127-129 | it changes the translation of that one page and of no other outside the window |
| `Mapping.NewPagesDistinct` | src/arch/x86_64/src/vmm.c:64-70 | a newly mapped page shares its frame with no other page under a private slot, of its own directory or another |
| `Mapping.LeafIsOwned` | src/arch/x86_64/src/vmm.c:64-70 | a page of a private slot is mapped to a frame of its own or to memory the allocator does not manage |
| `Mapping.MappingIsolated` | src/arch/x86_64/src/vmm.c:33-88 | `kmmap` in one directory changes no translation of any other |
| `Mapping.EnsuredTable` | src/arch/x86_64/src/vmm.c:46-62 | after `if (*entry == 0) *entry = ...` the next table exists and everything already mapped stands |
| `Mapping.EnsuredPage` | src/arch/x86_64/src/vmm.c:64-70 | after the lowest-level step one more page of the range is mapped |
| `Mapping.PointedPage` | src/arch/x86_64/src/vmm.c:336-348 | after the lowest-level step of `kmmap_physical` one more page shows its frame |
| `Mapping.MappedPages` | src/arch/x86_64/src/vmm.c:37-78 | the pages from the first to `LastPage` are exactly those that meet the bytes of the range, of which there is at least one |
| `Mapping.EnsuredFrugal` | src/arch/x86_64/src/vmm.c:46-70 | a call makes every entry with its own flags, and tables only on the way to pages of its range |
| `Mapping.PointedFrugal` | src/arch/x86_64/src/vmm.c:342-342 | so does the lowest-level step of `kmmap_physical` |
| `Mapping.NewLeafHolds` | src/arch/x86_64/src/vmm.c:67-68 | the entry of a newly mapped page has those flags |
| `Unmapping.WholePages` | src/arch/x86_64/src/vmm.c:100-118 | the pages from `WholeFirst`, `WholeCount` many, are exactly those all of whose bytes are in the range |
| `Unmapping.UnmapCountExact` | src/arch/x86_64/src/vmm.c:113-118 | `kmunmap` sets out to free that many if and only if the start is aligned or the size reaches the end of the first page |
| `Unmapping.MapUnmapRoundTrip` | src/arch/x86_64/src/vmm.c:33-140 | mapping unmapped pages and unmapping them restores all translations outside the window and all frames the caller had; only new table frames stay allocated |
| `Unmapping.UnmappingIsolated` | src/arch/x86_64/src/vmm.c:100-140 | `kmunmap` in one directory changes no translation of any other |
| `Unmapping.MappedIsClearable` | src/arch/x86_64/src/vmm.c:64-70 | pages of a range just mapped meet what `kmunmap` needs |
| `Unmapping.ClearableEntry` | src/arch/x86_64/src/vmm.c:127-128 | the entry of such a page holds a frame of the page's own, or one `free_frame` ignores |
| `Directory.SelfEntryFields` | src/arch/x86_64/src/vmm.c:180-180 | `frame \| 3 \| 4` is present, not large and points at the frame |
| `Directory.CreatedOk` | src/arch/x86_64/src/vmm.c:171-184 | a new directory keeps the invariant |
| `Directory.CreatedTranslates` | src/arch/x86_64/src/vmm.c:171-184 | it translates what it shares with the bootloader's directory alike, and nothing else |
| `Directory.CreationIsolated` | src/arch/x86_64/src/vmm.c:171-184 | creating a directory changes no translation of another |
| `AddressRuns.RunOk` | src/arch/x86_64/src/vmm.c:33-184 | the invariant, which the contracts of `Kmmap`, `KmmapPhysical` and `Kmunmap` promise and creation and other writes are shown to keep, holds in every state of every run of calls |
| `AddressRuns.StepKeepsMapped` | src/arch/x86_64/src/vmm.c:33-184 | no call unmaps a page outside its own range and directory |
| `AddressRuns.Isolation` | src/arch/x86_64/src/vmm.c:33-184 | whatever calls run in other directories, no translation of a directory changes, its recursive window included |
| `AddressRuns.DirectoriesStaySeparate` | src/arch/x86_64/src/vmm.c:171-184 | in every state of every run each root refers to itself through slot 50, no directory's walks read another's table, and no page under a private slot shows a table of any directory or another page's frame |
| `Search.FoundUnmapped` | src/arch/x86_64/src/vmm.c:359-399 | the pages a search finds are consecutive and at or above the base; those under the entry it stopped at, of whatever level, are unmapped and in a private slot |
| `Search.FoundInside` | src/arch/x86_64/src/vmm.c:389-400 | a search that stopped in a lowest-level table found all its pages there |
| `Search.FoundFirst` | src/arch/x86_64/src/vmm.c:389-400 | such a search took the first place there is: the pages found follow an unmapped one at or above the base, and no earlier page starts a run of N + 1 empty entries |
| `Search.FoundFree` | src/arch/x86_64/src/vmm.c:374-387 | the range found is unmapped if and only if its part past the end of what that entry covers is |
| `Search.FoundOverMapped` | src/arch/x86_64/src/vmm.c:386-387 | a valid state in which the range found runs into a mapped page |
| `Search.FreeIsApart` | src/kernel/src/vmmwrapper.c:16-20 | a range found unmapped overlaps no live range |
| `Search.AllocKeepsApart` | src/kernel/src/vmmwrapper.c:13-23 | mapping it keeps all live ranges, it among them, mapped and apart |
| `Search.FreeKeepsLive` | src/kernel/src/vmmwrapper.c:25-28 | freeing one live range leaves the others mapped and apart |
| `Search.OtherKeepsLive` | src/arch/x86_64/src/vmm.c:33-184 | so does any other call, in this directory or another, that unmaps no live page |
| `Search.LiveRangesNeverOverlap` | src/kernel/src/vmmwrapper.c:13-28 | after any run of allocations, releases and such other calls, live ranges are mapped, pairwise disjoint, and meet what `space_free` needs |
| `Search.LiveMeans` | src/kernel/src/vmmwrapper.c:13-28 | the live ranges are those allocated and not freed since |
| `Vmm.AllocationSpares` | src/arch/x86_64/src/pmm.c:86-89 | a hand-out changes no translation and no table, and the frame belongs to no address space |
| `Vmm.ReleaseSpares` | src/arch/x86_64/src/pmm.c:192-196 | a release changes no translation |
| `Vmm.FreeSpares` | src/arch/x86_64/src/pmm.c:182-200 | nor does a `free_frame` of memory in no region |
| `Vmm.EntryReachable` | src/arch/x86_64/src/vmm.c:46-65 | in every valid address space the crafted address of an entry designates that entry |
| `Vmm.PageTables.Kmmap` | src/arch/x86_64/src/vmm.c:33-88 | maps exactly the pages that meet the bytes of the range, at least one, to distinct zeroed new frames; mapped pages, pages outside and all other memory stay; every new entry has the flags of the call and every new table lies on the way to a page of the range; the core halts, with the lock held, only when no frame is left |
| `Vmm.PageTables.EnsureEntry` | src/arch/x86_64/src/vmm.c:46-48 | an entry in use stays; an empty one is linked to a fresh zeroed frame, through the window |
| `Vmm.PageTables.PointPage` | src/arch/x86_64/src/vmm.c:336-342 | the page's entry is replaced, through the window, and the page shows its frame |
| `Vmm.PageTables.MapL1` | src/arch/x86_64/src/vmm.c:64-79 | the innermost loop deals with its pages in order and stops at the last byte or at the end of the table |
| `Vmm.PageTables.MapL2` | src/arch/x86_64/src/vmm.c:57-80 | the same through the carry into the second level |
| `Vmm.PageTables.MapL3` | src/arch/x86_64/src/vmm.c:50-82 | the same through the carry into the third level |
| `Vmm.PageTables.MapL4` | src/arch/x86_64/src/vmm.c:45-85 | the same through the carry into the fourth level, so every range ends inside the loops |
| `Vmm.PageTables.KmmapPhysical` | src/arch/x86_64/src/vmm.c:313-357 | page k of the range translates to the k-th frame from the physical start, replacing earlier leaves; no other translation outside the window changes; it halts only when no frame is left |
| `Vmm.PageTables.CreatePageDirectory` | src/arch/x86_64/src/vmm.c:171-184 | a fresh frame becomes a copy of the bootloader's root with slot 50 on itself, for user and supervisor to write, and slot 0 empty |
| `Vmm.PageTables.FillDirectory` | src/arch/x86_64/src/vmm.c:177-181 | the frame's entries are the bootloader's but for slots 50 and 0, and no other frame changes |
| `Vmm.PageTables.CopyDirectory` | src/arch/x86_64/src/vmm.c:177-178 | the copy loop copies all 512 entries and changes nothing else |
| `Vmm.PageTables.InitVmm` | src/arch/x86_64/src/vmm.c:15-25 | the root in use becomes the template for new directories and stays as it is; one more frame is taken and holds a copy of it |
| `Vmm.PageTables.SearchAvailable` | src/arch/x86_64/src/vmm.c:359-409 | the base itself when an upper entry is empty, otherwise one past the start of the first run of N + 1 empty entries |
| `Vmm.PageTables.SearchTable` | src/arch/x86_64/src/vmm.c:389-400 | the counting loop hits at the first run of N + 1 empty entries |
| `Vmm.ScanStep` | src/arch/x86_64/src/vmm.c:392-399 | one turn of it: a hit ends the first run, anything else leaves one ahead |
| `Vmm.PageTables.Kmunmap` | src/arch/x86_64/src/vmm.c:100-140 | unmaps exactly the pages wholly inside the range, in either direction, and releases exactly their frames; pages that `kmmap_physical` mapped, or none, release nothing |
| `Vmm.PageTables.UnmapL1` | src/arch/x86_64/src/vmm.c:123-140 | the loop clears the entries of those pages and skips a partly covered first one |
| `Vmm.PageTables.ClearEntry` | src/arch/x86_64/src/vmm.c:127-129 | one page is unmapped and its frame, if the allocator manages it, released |
| `VmmWrapper.ConvertedFlags` | src/arch/x86_64/src/vmm.c:419-435 | converted flags may be given to `kmmap` if and only if the execute flag is not among them |
| `VmmWrapper.ConvertedBits` | src/arch/x86_64/src/vmm.c:419-435 | bit for bit: present, write, user, copy-on-write, swapped and execute flags go to bits 0, 1, 2, 9, 10 and 63, and no other bit is set |
| `VmmWrapper.FoundInSlotZero` | src/kernel/src/vmmwrapper.c:16-16 | a search from the second page finds a mappable, unmapped range inside the first lowest-level table |
| `VmmWrapper.SpaceAllocator.SpaceAlloc` | src/kernel/src/vmmwrapper.c:13-23 | ceil(size / 4096) pages that were all unmapped become mapped, with the converted flags, and both locks are released |
| `VmmWrapper.SpaceAllocator.SpaceFree` | src/kernel/src/vmmwrapper.c:25-28 | the pages wholly inside the range are unmapped |
| `VmmWrapper.FreeReleasesAll` | src/kernel/src/vmmwrapper.c:25-28 | all pages of an allocation are released if and only if its size is a multiple of the page size |
| `VmmWrapper.AllocThenFree` | src/kernel/src/vmmwrapper.c:13-28 | what `space_alloc` returned may be freed, and then every translation is restored and only table frames remain allocated |
| `Boot.Kernel.ReserveBitmap` | src/arch/x86_64/src/arch.c:92-95 | 1 + nframes / 4096 calls of the bump allocator give the first frames of region 0, one after the other |
| `Boot.Kernel.BootAllocator` | src/arch/x86_64/src/arch.c:88-97 | after `init_pmm` exactly the frames of the bitmap are taken, and one is left to hand out if and only if there are at least 64 |
| `Boot.BitmapIsTaken` | src/arch/x86_64/src/arch.c:90-97 | the reserved frames hold all nframes / 64 + 1 words of the bitmap, and nothing else is taken |
| `Boot.SmallMachine` | src/arch/x86_64/src/arch.c:88-97 | the premises of the boot sequence can be met, by a machine with frames left once the bitmap is there |
| `Boot.Kernel.FirstDirectory` | src/arch/x86_64/src/arch.c:100-104 | the first directory is put in use and its context page mapped |
| `Boot.Kernel.BootMemory` | src/arch/x86_64/src/arch.c:88-104 | the boot sequence ends in a valid directory, self-referencing, with the context page mapped for the supervisor to write, and halts only when no frame is left |
| `Bytes.SetByteGets` | src/kernel/src/utils/gcc/memory.c:15-16 | storing one byte in a word changes that byte only |
| `Bytes.NumberLittle` | src/arch/x86_64/src/rsdt.c:68-80 | reading a number from its little-endian bytes gives it back |
| `Bytes.LittleDigit` | src/arch/x86_64/src/rsdt.c:68-80 | byte i of a laid-out number is its digit of weight 256^i |
| `Bytes.LittleEndianIs` | src/kernel/src/launch.c:64-103 | so for the fields of file headers |
| `Bytes.ByteDigit` | src/kernel/src/utils/gcc/memory.c:15-16 | likewise for the bytes of a word of memory |
| `ElfImage.ImageAfterMap` | src/kernel/src/launch.c:142-142 | mapping a segment's pages keeps the bytes on pages shared with earlier segments and adds zero bytes |
| `ElfImage.ImageAfterByte` | src/kernel/src/utils/gcc/memory.c:15-16 | one byte stored through the program's address space changes that byte of the image only |
| `Launch.CheckElf` | src/kernel/src/launch.c:120-135 | byte 5 is zeroed, then accepted if and only if magic, class 64 and executable type are there |
| `Launch.PutByte` | src/kernel/src/utils/gcc/memory.c:15-16 | a byte written by the program's address changes that one byte of physical memory |
| `Launch.Memcpy` | src/kernel/src/utils/gcc/memory.c:12-18 | the program's image has the file's bytes in the destination and is otherwise unchanged |
| `Launch.MapSection` | src/kernel/src/launch.c:137-145 | a loadable header adds its segment to the image, any other adds nothing |
| `Launch.MapElf64` | src/kernel/src/launch.c:156-167 | any rejected file changes nothing but its byte 5; otherwise the image of all segments is in memory |
| `Launch.SegmentBytes` | src/kernel/src/launch.c:137-167 | for segments with disjoint memory, the image's first filesz bytes of each are the file's, the rest zero |
| `Launch.LoadedSegments` | src/kernel/src/launch.c:120-167 | ELF image theorem: after loading, the program reads those bytes through its page tables, even where segments share a page |
| `ElfFile.HeaderOkBytes` | src/kernel/src/launch.c:120-135 | a file is accepted if and only if seven bytes, at 0 to 4, 16 and 17, are those of a 64-bit executable |
| `ElfFile.SegmentRead` | src/kernel/src/launch.c:64-103 | from a file laid out as headers of the given bytes, the loader reads the headers that were laid out |
| `ElfFile.LaidOutLoadable` | src/kernel/src/launch.c:156-167 | a laid-out file whose segments fit meets what the loader relies on |
| `ElfFile.LoadedLayout` | src/kernel/src/launch.c:120-167 | from file bytes to memory bytes: byte k of a segment of type 1 is byte `offset + k` of the file, or zero past its part, on a page with the present, write and user bits |
| `ElfFile.LoadFile` | src/kernel/src/launch.c:156-167 | that is what the loader leaves, for every laid-out file whose segments fit, whatever its byte 5 |
| `Launch.UncoveredIsZero` | src/kernel/src/launch.c:156-167 | pages no segment meets hold no file bytes |
| `Smp.NextKeepsInv` | src/arch/x86_64/src/smp.c:45-121 | every step of any core keeps the protocol's invariant |
| `Smp.ApKeepsCount` | src/arch/x86_64/src/smp.c:84-84 | the counter's separate read and write lose no increment, and do not wrap |
| `Smp.BootIsSafe` | src/arch/x86_64/src/smp.c:45-121 | in every run of up to 255 cores: nobody passes the gate early, at most one is inside bottleneck 1, the counter is 1 plus the cores past the increment, no two cores are in `get_frame`, once the gate is open every other core has been started, and the wait ends only when all are initialised |
| `Smp.RunInv` | src/arch/x86_64/src/arch.c:124-128 | the invariant holds in every state of every run, up to and past the wait |
| `Locks.AfterNested` | src/kernel/src/interrupt_lock.c:13-30 | level and interrupt flag after any nested sequence of locks and unlocks |
| `Locks.BalancedRestores` | src/kernel/src/interrupt_lock.c:13-30 | balanced nesting restores the level, and the flag if and only if it was entered inside a lock or with interrupts on |
| `Locks.InterruptLock.LockInts` | src/kernel/src/interrupt_lock.c:22-30 | one core's level and flag change as specified, no other core's |
| `Locks.InterruptLock.UnlockInts` | src/kernel/src/interrupt_lock.c:13-20 | likewise, and the core halts exactly when its level is 0 |
| `Locks.StepKeeps` | src/kernel/include/log/log.h:38-42 | every step of any core, interrupts included, keeps the invariant |
| `Locks.PrintLockSafe` | src/kernel/include/multicore/lock.h:11-25 | in every run: the print lock is 1 if and only if exactly one core holds it, its holder runs inside a lock level with interrupts off, no interrupted activity holds it, and no unlock fails its assertion |
| `Locks.CallsMove` | src/kernel/src/interrupt_lock.c:13-30 | along every run, whatever handlers and other cores do, the calls an activity finishes move level and interrupt flag as the counter by itself does |
| `Locks.PlainToPlain` | src/kernel/src/interrupt_lock.c:13-30 | in particular from outside every call to outside every call |
| `Locks.LogRestores` | src/kernel/include/log/log.h:38-42 | a LOG locks and unlocks once: it gives back the level, and the flag if and only if entered inside a lock or with interrupts on |
| `Locks.InterruptsComeBack` | src/kernel/include/log/log.h:38-42 | a core outside every lock with interrupts on has them on whenever it is there again |
| `Console.TextScreen.Memcpy` | src/arch/x86_64/bootload/main.c:5-14 | the ascending byte copy moves an overlapping block down correctly |
| `Console.TextScreen.Memsetw` | src/arch/x86_64/bootload/main.c:26-34 | exactly the given cells become blanks |
| `Console.TextScreen.Scroll` | src/arch/x86_64/bootload/scrn.c:12-33 | the text moves up by the rows the cursor is below the last, and one blank row enters after it: for one row, the next screen of a terminal |
| `Console.TextScreen.Cls` | src/arch/x86_64/bootload/scrn.c:60-79 | the screen shows an empty terminal |
| `Console.TextScreen.Putch` | src/arch/x86_64/bootload/scrn.c:82-134 | for every character, the screen shows the last 25 rows of the unbounded terminal it is put on; the cursor stays inside |
| `Console.TextScreen.Puts` | src/arch/x86_64/bootload/scrn.c:82-134 | the same after any sequence of characters |
| `Console.GoneRowsStay` | src/arch/x86_64/bootload/scrn.c:12-33 | rows that have left the screen are never changed, so the screen is all there is to write |
| `Console.LinesShow` | src/arch/x86_64/bootload/scrn.c:82-134 | any number of printable lines shorter than a row, put on an empty terminal: row i holds line i and then blanks, and the cursor is behind the last line |
| `Console.CharacterShows` | src/arch/x86_64/bootload/scrn.c:116-129 | a character extends the last line, and the eightieth begins the next |
| `Console.CharacterMoves` | src/arch/x86_64/bootload/scrn.c:116-129 | anywhere, a printable character writes its one cell and moves one on |
| `Console.NewlineMoves` | src/arch/x86_64/bootload/scrn.c:107-111 | a newline goes to column 0 of the next row and writes nothing |
| `Console.TabMoves` | src/arch/x86_64/bootload/scrn.c:94-97 | a tab goes to the least multiple of 8 above the column, the next row at 80, and writes nothing |
| `Console.BackspaceMoves` | src/arch/x86_64/bootload/scrn.c:88-91 | a backspace goes one to the left, not past column 0, and erases nothing |
| `Console.ReturnMoves` | src/arch/x86_64/bootload/scrn.c:100-103 | a return goes to column 0 of the same row and writes nothing |
| `Console.ControlsIgnored` | src/arch/x86_64/bootload/scrn.c:82-134 | the other control characters do nothing |
| `Madt.Position` | src/arch/x86_64/src/rsdt.c:57-100 | the sum of the lengths of the entries before it is where an entry lies |
| `Madt.ApicInfo.ParseMadt` | src/arch/x86_64/src/rsdt.c:49-103 | for every well-formed table that fits, the walk ends and has collected exactly the enabled local APICs, overrides and NMIs in order, the last I/O APIC and the last address override or the header's address |
| `Madt.LapicsCollected` | src/arch/x86_64/src/rsdt.c:59-70 | what is collected as local APICs: the entries with bit 0 of their flags set, each once, in order |
| `Madt.OverridesCollected` | src/arch/x86_64/src/rsdt.c:79-84 | as overrides: those of the table, each once, in order |
| `Madt.NmisCollected` | src/arch/x86_64/src/rsdt.c:91-96 | as NMIs: those of the table, each once, in order |
| `Madt.AddressCollected` | src/arch/x86_64/src/rsdt.c:85-90 | as address: that of the override after which there is none, or the header's |
| `Madt.NoIoApic` | src/arch/x86_64/src/rsdt.c:73-78 | without an I/O APIC entry the one known before stays |
| `Madt.ApicInfo.Visit` | src/arch/x86_64/src/rsdt.c:57-99 | a turn of the walk adds what its entry holds to what was collected |
| `Madt.ReadBody` | src/arch/x86_64/src/rsdt.c:59-99 | what each case reads is what was laid out |
| `Madt.IoApicIdIsLength` | src/arch/x86_64/src/rsdt.c:76-76 | in any table, the id kept for the last I/O APIC is right if and only if it equals the length of its entry |
| `Madt.Checksum` | src/arch/x86_64/src/rsdt.c:40-46 | accepts exactly the tables whose bytes sum to 0 modulo 256 |
| `Madt.DamageIsSeen` | src/arch/x86_64/src/rsdt.c:40-46 | changing one byte of an accepted table makes it rejected |
| `Numbers.Print` | src/kernel/src/utils/string/convert.c:1-18 | the digits and a terminator end at the given position, within 21 or 17 bytes, and nothing else in the buffer changes |
| `Numbers.TextFits` | src/kernel/src/utils/string/convert.c:1-18 | a 64-bit number has at most 20 decimal and 16 hexadecimal digits |
| `Numbers.Strtoul` | src/kernel/src/parse_capability_map.c:84-101 | the end of the digits and their value in the base, modulo 2^64 |
| `Numbers.Atou` | src/kernel/src/parse_init.c:20-28 | the end of the decimal digits and their value modulo 2^32 |
| `Numbers.ReadBack` | src/kernel/src/parse_capability_map.c:84-101 | a printed number followed by any other character reads back as itself |
| `Numbers.DigitCharacters` | src/kernel/src/utils/string/convert.c:11-16 | digit d is character d of "0123456789abcdef" |
| `Numbers.DigitValues` | src/kernel/src/parse_capability_map.c:87-94 | digits count by their place in "0123456789abcdef" or "0123456789ABCDEF" |
| `Numbers.HexDigits` | src/kernel/src/parse_capability_map.c:87-87 | no other character is a digit |
| `Numbers.DigitsOrder` | src/kernel/src/utils/string/convert.c:5-6 | the last digit is printed last, the first is no zero |
| `Numbers.HexRoundTrip` | src/kernel/src/utils/string/convert.c:10-18 | `strtoul(decX(x), 16)` is x for every 64-bit x |
| `InitFile.Strncmp` | src/kernel/src/parse_capability_map.c:32-40 | 0 if and only if the characters agree |
| `InitFile.GetNextLine` | src/kernel/src/parse_init.c:30-39 | one past the first terminator, none if there is none |
| `InitFile.CutLines` | src/kernel/src/parse_init.c:48-52 | exactly the line ends become terminators |
| `InitFile.ParseRow` | src/kernel/src/parse_init.c:63-75 | a turn of the loop sets the line's pointer, changes nothing before the line and goes on after it |
| `InitFile.ParseInit` | src/kernel/src/parse_init.c:41-77 | for every file printed as a header and lines, the core count and each core's last name come back, through pointers into the overwritten file; without the header it panics |
| `InitFile.NameMeans` | src/kernel/src/parse_init.c:68-70 | the name that counts for a core is that of its last line |
| `InitFile.NoName` | src/kernel/src/parse_init.c:43-43 | a core without a line has none |

## Left out

Premises, stated as preconditions because the code checks none of them:

- Usable regions are page-aligned, non-empty, disjoint, at most 19, and below the 2 GiB window; the
  bootloader's tables lie outside them; the frames reserved for the bitmap fit in the first region.
- Mapping flags are below 0x1000 without the page-size bit; ranges stay in the 48-bit space, under
  slots that are private to the directory (slot 0 or empty in the bootloader's root, never slot 50).
- `kmunmap` ranges have their whole pages in one lowest-level table, under private slots, and mapped
  unless frame 0 is in no usable region; an unaligned range reaches the end of its first page.
- `search_available` gets an aligned base and 1 to 511 pages, and hits before its 9-bit cursor wraps.
- ELF headers and segments lie inside the file, with file size at most memory size, over pages that
  are unmapped before loading; a wrong one would be read or written as given.
- MADT entries have lengths 2 to 127 and fit the tables; length bytes are signed in the code.
- Init-file indices are below the number of cores; a number ends before the file does.

Not modelled:

- Vmm.PageTables.KmmapPhysical: for page-aligned virtual and physical starts, and target frames
  outside the allocator's regions, as for device memory; a managed target could be a page table.
- Vmm.PageTables.Kmunmap: without the freeing of upper-level tables, where the code dereferences a
  physical entry value and frees the entry's own virtual address.
- VmmWrapper.SpaceAllocator.SpaceAlloc: without the failure path, which returns with the lock held,
  and without the execute flag, whose entries `free_frame` would not recognise.
- VmmWrapper.SpaceAllocator.SpaceFree: under the premises of `kmunmap`.
- InitFile.ParseInit: files of the printed layout only, and files without the header; other layouts
  of numbers and separators are not given a meaning.
- Launch.LoadedSegments: the file is an array apart from physical memory; a module that lies in
  frames the kernel also maps is not modelled.
- Console.TextScreen.Scroll: up to 25 rows below the screen, where the byte count of the copy is not
  negative; `putch` gets there by one.
- Smp.BootIsSafe: the hand-off after boot through `launching_addresses` is left out, since clearing
  the mailbox after announcing boot can lose a wake-up; no liveness is claimed.
- Locks.PrintLockSafe: core ids are stable, interrupts are maskable and handlers balance their locks;
  `set_ints` and non-maskable exceptions are left out.
- The nested loops of `kmmap` and `kmmap_physical` differ only in the innermost step; the model has
  one method per level and shares the four between the two functions.
- Physical memory is a value held in a field, so the model has no aliasing between C pointers; every
  access goes through the window or the page tables.
- The translation cache, memory ordering (steps are sequentially consistent), and what the write,
  user, no-execute and accessed bits do: entries are shown to have the flags they were made with, but
  translations are about presence, size and frame.
- Large pages occur only in the bootloader's tables.
- The allocator itself takes no lock; that boot never runs it on two cores at once is `BootIsSafe`,
  later callers are taken one at a time.
- `get_size`, `search_empty_space` and `map_physical`: their 9-bit cursors wrap at 512.
- `fill_capabilities` and the capability table: the index never advances.
- `map_shdr` is never called.
- `get_file` and the file table, the log text, `set_core_id` and the reading of core ids.
- Descriptor tables, APIC, HPET, serial and PIC programming, keyboard, assembly stubs, the boot
  stub's number printers, and `cpu_regs.c`, whose loop bound does not match its table.
