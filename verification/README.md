# YmirC in Dafny

YmirC is a small AMD-V hypervisor. A UEFI boot loader (SurtrC) places the kernel
image and edits the live page tables; the kernel then takes over physical memory
with a page allocator, rebuilds its own page tables, carves small chunks out of
pages, sets up one guest with nested page tables, and finally loops between
VMRUN and #VMEXIT, emulating two 8259 interrupt controllers on the way.

This project models that code and proves what it is for. Everything lives in one
physical memory of 64-bit words, and a word is the sequence of its bits, so the
bitmaps, the table entries, the links inside free chunks and the bytes the guest
reads are the same memory seen at four levels.

| file | models |
|---|---|
| `Bits.dfy`, `Memory.dfy`, `Bytes.dfy`, `Arithmetic.dfy` | `ymirc/bits.h`, `ymirc/mem.c`: bit fields, address conversion, words, frames and bytes |
| `PageAllocator.dfy` | `ymirc/page_allocator.c`: bitmap, reserved regions, both searches, initialisation |
| `BinAllocator.dfy` | `ymirc/bin_allocator.c`: free lists whose links lie inside the free chunks |
| `AllocatorRuns.dfy` | whole runs of calls to either allocator |
| `PageTables.dfy`, `TablePages.dfy` | entries, the page walk, and the frame lemmas every table builder needs |
| `NestedPaging.dfy` | `ymirc/arch/x86/svm_npt.c` |
| `Reconstruct.dfy` | `ymirc/arch/x86/page.c` |
| `BootPaging.dfy`, `BootImage.dfy` | `surtrc/arch/x86/page.c`, `surtrc/boot.c` |
| `BootParameters.dfy`, `GuestMemory.dfy` | `ymirc/linux.h`, `ymirc/arch/x86/vm.c` |
| `Vmcb.dfy`, `Isolation.dfy` | control block and permission maps (`ymirc/arch/x86/svm_vcpu.c`, `svm_vmcb.h`), and what a guest can reach |
| `KernelMain.dfy`, `BootWitnesses.dfy` | `ymirc/main.c`: the boot sequence as a whole, and boot states written out in full |
| `VcpuState.dfy`, `SvmIoio.dfy`, `SvmMsr.dfy`, `SvmRun.dfy` | the virtual CPU, port and MSR exits, and the run loop |

The walk follows sections 5.3 and 15.25 of the AMD64 Architecture Programmer's
Manual, Volume 2, virtual interrupts its section 15.21; the memory map is the one
of GetMemoryMap in section 7.2 of the UEFI specification.

Where the source updates things in place the model does so as well: classes with
`modifies` clauses, loops with invariants, and for each of them a function or
predicate over values that the lemmas are about. Inputs from outside (firmware
pages, what the guest does between two exits, arriving interrupt vectors, values
of passed-through ports) are parameters, and hold for every value.

## Where the code and the expectation part

Each of these is stated with a concrete case, an exact condition, or both.

- An HLT exit drops a virtual interrupt in flight unless the state is one of
  those `SvmRun.HltSafe` names (`HltKeepsExactlyWhenSafe`, `InterruptLostAtHlt`).
- The aligned search refuses a free window that ends at `frame_end` unless it is
  the first candidate (`PageAllocator.WindowAtTheEndRefused`).
- `alloc` of 0 bytes, or of a size whose rounding wraps, returns the first frame
  and reserves nothing (`RoundingHolds`, `Allocator.Alloc`).
- A chunk that is freed twice heads its list as its own successor, and is handed
  out twice (`BinAllocator.DisorderAfterFree`, `Bins.DoubleFree`).
- A pointer made before the switch to the rebuilt mapping cannot be freed after
  it (`Memory.ConversionRoundTrip`).
- The table clones are described as recursive and are not: they share every
  table below level 3 (`Reconstruct.CloneIsShallow`).
- The new level-4 entries grant everything, so effective rights widen where a
  boot level-4 entry took some away (`Reconstruct.RightsKeptExactly`; boot tables
  where that happens: `BootWitnesses.KernelPageBecomesExecutable`); the placed kernel image is not affected
  (`KernelMain.ImageSurvives`).
- The boot loader's page count is too small by one for some unaligned images
  (`BootImage.CoverageCondition`, `LastByteLeftOut`). For an unaligned start the
  firmware may refuse the AllocateAddress request made in between, and then the
  loader stops before mapping anything.
- An image smaller than the offset of its own code passes the size check by
  wrap-around (`GuestMemory.CodeCheck`).
- Kernel code that reaches past 0x6000000 overwrites the ramdisk loaded before it
  (`GuestMemory.GuestFindsItsKernel`).
- 0 setup sectors stand for 4, but the path that loads the guest does not apply
  that default: the code is in place exactly for images that count a sector, or
  that repeat themselves at that distance (`GuestMemory.OffsetsAgree`,
  `CodeInPlaceExactly`), and `ZeroSectorsMisplaceTheCode` is an image that is
  accepted and starts in its setup code.
- The two permission-map allocations are not checked for NULL. `InitVerdict` says
  from the allocator's state when that happens (`Isolation.NullMapExactly`). The
  whole sequence gets there on a machine with seven usable frames and boot tables
  with one kernel slot: three go to page tables, one to the save area, one to the
  VMCB, and no two are left together (`BootWitnesses.TightMachine`). Filling the
  map then faults at its first byte (`KernelMain.Boots`).

## Model

| member | source | states |
|---|---|---|
| `Bits.StoredField` | ymirc/bits.h:57-61 | set_masked_bits through the mask of a field writes the value's low bits there and keeps every other bit |
| `Bits.StoredBit` | ymirc/bits.h:57-61 | through a one-bit mask it sets that bit and keeps the rest |
| `Bits.BitIs` | ymirc/bits.h:28-47 | bit i of a number, as the tests of bits.h read it, is the number divided by 2 to the i, modulo 2 |
| `Memory.ConversionRoundTrip` | ymirc/mem.c:5-26 | virt2phys undoes phys2virt on every direct-map address if and only if both happen on the same side of the mapping switch; no address but 0 becomes NULL |
| `BootParameters.WordIsItsBytes` | ymirc/mem.c:32-60 | memory is little-endian: a 64-bit word is the number its eight bytes spell from the lowest address on |
| `Bytes.Memcpy` | ymirc/mem.c:32-39 | the destination holds the source's old bytes, every other byte is unchanged |
| `Bytes.Memset` | ymirc/mem.c:54-60 | the range holds the byte, every other byte is unchanged |
| `PageAllocator.Allocator.FrameStatusAt` | ymirc/page_allocator.c:78-82 | word frame/64, bit frame%64 is set exactly for the used frames |
| `PageAllocator.Allocator.SetFrameStatus` | ymirc/page_allocator.c:84-92 | exactly one frame enters or leaves the used set, at the word level |
| `PageAllocator.MirrorsUnique` | ymirc/page_allocator.c:78-92 | the used set determines every word of the bitmap |
| `PageAllocator.Allocator.OverlapsReserved` | ymirc/page_allocator.c:58-69 | for a non-empty argument, true exactly when it shares a frame with a reserved region; an empty one overlaps what it lies strictly inside of |
| `PageAllocator.Allocator.MarkReserved` | ymirc/page_allocator.c:48-54 | panics exactly when the region table is full; otherwise the frames become used and covered, nothing else changes |
| `PageAllocator.Allocator.FirstFit` | ymirc/page_allocator.c:163-178 | the search that skips i+1 frames returns the least start of a free run, and fails only if no run exists |
| `PageAllocator.Allocator.Alloc` | ymirc/page_allocator.c:163-178 | NULL exactly when no run fits; otherwise the least fitting block, which becomes used and live; the invariant is kept, and the zero-frame case is stated |
| `PageAllocator.RoundingHolds` | ymirc/page_allocator.c:163-164 | the rounded frames hold n bytes if and only if the rounding does not wrap, and are 0 exactly for n = 0 or on wrap |
| `PageAllocator.Allocator.Free` | ymirc/page_allocator.c:181-190 | panics exactly on overlap with a reserved region; gives back exactly the block's frames; never panics on a live block; reserved frames stay used for any argument |
| `PageAllocator.Allocator.AllocThenFree` | ymirc/page_allocator.c:163-190 | freeing a fresh block restores the bitmap word for word, in either mapping phase |
| `PageAllocator.Allocator.AlignedSearch` | ymirc/page_allocator.c:193-214 | the result is the least positive multiple of the alignment that starts a free run at all; failure means the only aligned free runs, if any, end right at frame_end |
| `PageAllocator.Allocator.AllocAlignedPages` | ymirc/page_allocator.c:193-214 | NULL for a misaligned alignment or when the search fails; otherwise that block becomes used and live |
| `PageAllocator.LeastOfAll` | ymirc/page_allocator.c:193-214 | the least multiple the code accepts is the least multiple that starts a free run |
| `PageAllocator.WindowAtTheEndRefused` | ymirc/page_allocator.c:204-213 | a free, aligned, managed window ending at frame_end that the search does not return |
| `PageAllocator.Allocator.ReserveHole` | ymirc/page_allocator.c:127-161 | frames between two descriptors become reserved, and the classified prefix grows to the next descriptor |
| `PageAllocator.Allocator.ClassifyDescriptor` | ymirc/page_allocator.c:127-161 | a descriptor's frames are classified by its type, or cut off at the managed limit |
| `PageAllocator.Allocator.WalkMap` | ymirc/page_allocator.c:127-161 | the loop panics exactly when the map needs more regions than the table holds |
| `PageAllocator.CountIsNeeded` | ymirc/page_allocator.c:127-161 | the walk with its early exits reserves one region for each hole and each descriptor that begins below the limit, usable descriptors that end below it aside |
| `PageAllocator.Allocator.Init` | ymirc/page_allocator.c:127-161 | below frame_end a frame is used iff it lies in no descriptor of type 3 or 7, iff a recorded region covers it; it panics exactly when the map needs more than 1024 regions; the invariant is established |
| `AllocatorRuns.PageRun` | ymirc/page_allocator.c:163-214 | after every run of calls, used frames are the reserved ones plus the blocks held; blocks held are disjoint, in [1, frame_end), and clear of reserved regions |
| `BinAllocator.PushLinked` | ymirc/bin_allocator.c:32-40 | storing the old head in the chunk's own first word yields the list with the chunk in front |
| `BinAllocator.PopLinked` | ymirc/bin_allocator.c:42-50 | the link read from the head chunk leads to the rest of the list |
| `BinAllocator.Bins.Push` | ymirc/bin_allocator.c:32-40 | the head and one word change, and the list in memory gains the chunk |
| `BinAllocator.Bins.InitBinPage` | ymirc/bin_allocator.c:55-70 | a fresh page becomes exactly its chunks, in address order, in front of the bin's list; fails exactly when no page is free |
| `BinAllocator.PageChunksAre` | ymirc/bin_allocator.c:55-70 | the pushed addresses are, without repetition, all addresses of the page aligned to the bin |
| `BinAllocator.Bins.AllocFromBin` | ymirc/bin_allocator.c:72-79 | takes the first free chunk, or the first of a new page; NULL exactly when there is neither; on a list that is not in order it still takes the head |
| `BinAllocator.Bins.BinIndex` | ymirc/bin_allocator.c:88-95 | the smallest bin that holds the size, or -1 if none does |
| `BinAllocator.BinTables` | ymirc/bin_allocator.c:14-19 | the seven sizes are 32 times the powers of two; chunks per page, chunk offsets and the alignment test follow from the size |
| `BinAllocator.Bins.BinAlloc` | ymirc/bin_allocator.c:97-109 | a chunk of the smallest sufficient bin that was nobody's, or a block of pages; no memory in use is written; every list stays acyclic and accounts for every chunk |
| `BinAllocator.Bins.BinFree` | ymirc/bin_allocator.c:120-131 | the alignment check rejects exactly misaligned pointers, never a live chunk; a live chunk heads its list afterwards with everything in order; an aligned chunk that is not live leaves a list that no sequence of chunks describes |
| `BinAllocator.PointerOffset` | ymirc/bin_allocator.c:113-116 | the check on the pointer decides about the physical chunk, in either mapping phase |
| `BinAllocator.Bins.ChunksDisjoint` | ymirc/bin_allocator.c:55-131 | free and live chunks of all bins share no byte |
| `BinAllocator.Bins.FreeThenAlloc` | ymirc/bin_allocator.c:97-131 | bin_free then bin_alloc of the same size returns the same pointer and restores all lists |
| `BinAllocator.DisorderAfterFree` | ymirc/bin_allocator.c:32-40 | linking in an aligned chunk that is not live, free or foreign, makes the bin's list cyclic or wrong for every account of its chunks |
| `BinAllocator.Bins.DoubleFree` | ymirc/bin_allocator.c:97-131 | after freeing a chunk twice, two allocations return the same pointer |
| `AllocatorRuns.BinRun` | ymirc/bin_allocator.c:97-131 | over every run of matched calls nothing kept by others changes a byte, and all that is held is disjoint and large enough |
| `AllocatorRuns.OwnedApart` | ymirc/bin_allocator.c:97-131 | two chunks or page blocks held at different addresses share no byte |
| `PageTables.InitTableReference` | ymirc/arch/x86/svm_npt.c:64-72 | the processor decodes the entry as a writable reference to the given frame; untouched bits survive |
| `PageTables.InitPageReference` | ymirc/arch/x86/svm_npt.c:74-80 | the same for a large page |
| `PageTables.EntryFormat` | ymirc/arch/x86/svm_npt.c:36-49 | presence, writing, user access, page size and no-execute are bits 0, 1, 2, 7 and 63 of an entry, the frame bits 12 to 51 |
| `PageTables.FrameWritten` | ymirc/arch/x86/svm_npt.c:64-80 | the frame stored through the wide mask is the frame the processor reads from bits 51:12 |
| `PageTables.WalksUnchanged` | ymirc/arch/x86/svm_npt.c:82-100 | memory outside the tables of a tree does not influence any translation |
| `PageTables.LeafIsPointUpdate` | ymirc/arch/x86/svm_npt.c:104-121 | in a tree, filling an absent slot with a leaf changes the translation of that page and of no other |
| `PageTables.EmptyTableIsAdded` | ymirc/arch/x86/svm_npt.c:104-121 | hanging in a zeroed table keeps the tree a tree |
| `PageTables.EmptyTableIsInvisible` | ymirc/arch/x86/svm_npt.c:104-121 | and changes no translation |
| `TablePages.AllocateTable` | ymirc/arch/x86/svm_npt.c:53-62 | a zeroed frame that was free, the first one the search accepts; only that frame is written; failure means every frame but possibly the last is used |
| `PageAllocator.PagesCompose` | ymirc/page_allocator.c:193-214 | allocating j pages one by one and then k more is allocating j + k, so running out is a property of the state and the number |
| `PageAllocator.SearchAlignedIs` | ymirc/page_allocator.c:193-214 | the block of an aligned allocation is determined by the used frames |
| `NestedPaging.EnsureTable` | ymirc/arch/x86/svm_npt.c:104-116 | an entry that is not present gets a new table, one that is present changes nothing, and no translation changes; it fails exactly when a table is missing and no page is accepted |
| `NestedPaging.Map2M` | ymirc/arch/x86/svm_npt.c:104-121 | the "already mapped" panic occurs exactly on mapped addresses and changes nothing; otherwise exactly that 2MiB page then translates to the host page, open for writing, execution and user accesses as nested translation needs it, every other address as before, or the tables missing on the way do not come together |
| `NestedPaging.NestedGrants` | ymirc/arch/x86/svm_npt.c:64-80 | where every present nested entry is open, an address that translates has all three rights |
| `NestedPaging.CountGrows` | ymirc/arch/x86/svm_npt.c:104-141 | mapping one more page needs exactly the tables by which the count of touched 512GiB and 1GiB pages grows |
| `NestedPaging.InitNpt` | ymirc/arch/x86/svm_npt.c:123-141 | each address of the range translates to host_start plus its offset and may be written, executed and accessed by the user level, every other address does not translate; the only panic is running out of pages, exactly when the counted tables do not come together; however it ends, only free frames are written |
| `Reconstruct.WalkReads` | ymirc/arch/x86/page.c:135-171 | a walk depends on the tables it visits and on nothing else |
| `Reconstruct.CloneTree` | ymirc/arch/x86/page.c:90-131 | cloning a table at any level yields a copy of its entries and writes only free frames; it takes one page for each table followed, and fails exactly when these do not come together |
| `Reconstruct.SameCount` | ymirc/arch/x86/page.c:90-131 | pages handed out meanwhile change neither the tables the clones follow nor their number |
| `Reconstruct.DirectMapWalk` | ymirc/arch/x86/page.c:143-153 | DIRECT_MAP_BASE + p translates to p for every p below 512GiB, writable and executable and not for the user level |
| `Reconstruct.KernelWalk` | ymirc/arch/x86/page.c:155-165 | addresses above the direct map translate as under the boot tables |
| `Reconstruct.BelowIsUnmapped` | ymirc/arch/x86/page.c:135-171 | nothing below the direct map is mapped |
| `Reconstruct.ReconstructMapping` | ymirc/arch/x86/page.c:135-171 | the three facts together for the new root, with the rights of the tables below level 4, given boot tables in frames the allocator does not hand out; every table the new root leads through is in a frame that will not be handed out; it runs out of pages exactly when two and those of the clones do not come together; however it ends, only free frames are written |
| `Reconstruct.HostSurvives` | ymirc/arch/x86/page.c:135-171 | whatever is written into frames handed out later, every host address keeps its translation and rights |
| `Reconstruct.RightsKeptExactly` | ymirc/arch/x86/page.c:155-165 | effective rights above the direct map are kept if and only if the old level-4 entry took away nothing the tables below give, and the address was none of the user level's; writing and execution are never lost |
| `Reconstruct.ExecuteDisableIsLost` | ymirc/arch/x86/page.c:155-165 | under an old level-4 entry with execution disabled, what was not writable and executable becomes so |
| `BootWitnesses.KernelPageBecomesExecutable` | ymirc/arch/x86/page.c:155-165 | boot tables in which the kernel's page is writable and not executable, and is both under any tables reconstructed from them |
| `Reconstruct.CloneIsShallow` | ymirc/arch/x86/page.c:97-131 | the new tables read none of the old ones for an address exactly when the old ones resolve it at level 3 |
| `BootPaging.InitEntry` | surtrc/arch/x86/page.c:56-71 | or-ing flags and address into a zero entry decodes to the intended entry |
| `BootPaging.SetLv4TableWritable` | surtrc/arch/x86/page.c:137-142 | under the copied root every address translates as before, and the tables can be edited as before |
| `BootPaging.Map4kTo` | surtrc/arch/x86/page.c:113-135 | exactly the target page translates to phys, every other translation is unchanged; the error occurs only if the page was mapped |
| `BootPaging.ChangeMap4k` | surtrc/arch/x86/page.c:145-165 | no address translates elsewhere; only that page's rights change, to those of the attribute |
| `BootPaging.CleanPathRights` | surtrc/arch/x86/page.c:113-165 | below references that forbid nothing, as map_4k_to creates them, an address has exactly the rights of its leaf |
| `PageTables.LeafDecidesRights` | surtrc/arch/x86/page.c:145-165 | if the leaf is not both writable and executable, the page is not |
| `BootImage.ComputeKernelMemoryRange` | surtrc/boot.c:69-98 | least addresses and greatest end over the loadable segments, each attained |
| `BootImage.CoverageCondition` | surtrc/boot.c:201-215 | the rounded page count covers every byte of the range if and only if the start's page offset and the length's last page fit one page |
| `BootImage.UnalignedStartMissesItsEnd` | surtrc/boot.c:201-203 | a range whose last byte is outside the counted pages |
| `BootImage.LastByteLeftOut` | surtrc/boot.c:201-215 | whenever the condition fails, some segment's last byte keeps its old translation |
| `BootImage.MapImage` | surtrc/boot.c:212-215 | the loop maps exactly the counted pages and changes no other translation |
| `BootImage.ProtectSegment` | surtrc/boot.c:135-143 | exactly the pages the segment touches get the leaf rights of its flags, and nothing translates elsewhere |
| `BootImage.ProtectImage` | surtrc/boot.c:112-147 | every page ends with the rights of the last segment that touches it |
| `BootImage.TouchedHasByte` | surtrc/boot.c:135-143 | the pages between the rounded start and end are pages of the segment's own bytes |
| `BootImage.LeafOfLast` | surtrc/boot.c:100-147 | where no later segment shares the page, bit 0 of p_flags gives execution without writing, bit 1 alone writing without execution, and neither bit neither right |
| `BootImage.PlaceImage` | surtrc/boot.c:69-215 | each byte p_vaddr+k of each PT_LOAD segment translates to p_paddr+k, no page of the image is both writable and executable, and where no later segment shares the page its leaf has the rights of the flag bits: PF_X execution only, PF_W without it writing only, else neither; these are the effective rights if the firmware's own references on the way forbid nothing |
| `BootParameters.FieldReadsBack` | ymirc/linux.h:42-94 | a number stored little-endian in a field reads back |
| `BootParameters.FieldStored` | ymirc/linux.h:130-162 | storing a field that overlaps no other keeps all earlier stores and every byte outside them |
| `BootParameters.BootParams.AddE820Entry` | ymirc/linux.h:172-178 | entry n receives the range and the count becomes n+1 |
| `BootParameters.StoreHeaderFields` | ymirc/arch/x86/vm.c:108-127 | the stored fields are exactly the listed ones |
| `BootParameters.PreparedNumber` | ymirc/arch/x86/vm.c:108-147 | each stored number is what its bytes spell in the prepared record |
| `BootParameters.HeaderAsRead` | ymirc/arch/x86/vm.c:108-147 | by offset: 0x600_0000 at 0x218, the ramdisk size at 0x21C, 0x2_0000 at 0x228, 0xFE00 at 0x224, 0xFFFF at 0x1FA, 0xFF at 0x210, 0 at 0x226, and flags 0, 6 and 7 set in the image's byte at 0x211 |
| `BootParameters.RamAsRead` | ymirc/arch/x86/vm.c:123-127 | an address lies in one of the record's RAM entries if and only if it is below 100MiB |
| `BootParameters.RestAsInImage` | ymirc/arch/x86/vm.c:108-147 | every byte outside the listed offsets is the image's |
| `BootParameters.ReadFieldsKept` | ymirc/arch/x86/vm.c:108-156 | no store touches the fields the loader reads |
| `GuestMemory.LoadImage` | ymirc/arch/x86/vm.c:91-97 | the 64-bit check decides between copying, panicking and overrunning; a copy changes exactly its range |
| `GuestMemory.CodeCheck` | ymirc/arch/x86/vm.c:155-159 | the check before the code is copied fails to protect guest memory if and only if the image is smaller than its code offset |
| `GuestMemory.LoadCmdline` | ymirc/arch/x86/vm.c:129-137 | the command line, cut or padded with zeros, and nothing else |
| `GuestMemory.LoadKernel` | ymirc/arch/x86/vm.c:100-163 | ends exactly as the sizes and header dictate; a panic has written nothing outside guest memory; otherwise every byte of guest memory is the expected one, layer over layer, and the boot parameters are the prepared ones, whose contents HeaderAsRead, RamAsRead and RestAsInImage give |
| `GuestMemory.GuestTableCount` | ymirc/arch/x86/vm.c:165-185 | the guest's 100MiB take three nested tables |
| `GuestMemory.SetupGuestMemory` | ymirc/arch/x86/vm.c:165-185 | how it ends is a function of the allocator's state and the images; on success the guest reads, through the nested tables, exactly the expected byte at each address of its memory and nothing elsewhere; unless a copy overran, only frames that were free are written |
| `GuestMemory.GuestFindsItsKernel` | ymirc/arch/x86/vm.c:100-185 | the byte at 0x100000+k is image[code_offset+k], at 0x10000+k the boot-parameter byte, at 0x6000000+k initrd[k] unless the code reaches there |
| `GuestMemory.AcceptedExactly` | ymirc/arch/x86/vm.c:100-160 | an image is loaded if and only if it is at least as long as its setup code, below 100MiB, its code fits from 1MiB and the ramdisk from 0x600_0000 and up to the header's limit; it overruns exactly if only the first fails |
| `GuestMemory.HeaderTellsTheTruth` | ymirc/arch/x86/vm.c:100-185 | through the nested tables the guest finds the ramdisk at the address and for the length its header states, the command line at the stated address, padded with zeros, and the addresses that translate are exactly those in the record's RAM entries |
| `GuestMemory.GuestByAddress` | ymirc/arch/x86/vm.c:151-185 | image[512*(setup_sects+1)+k] at 0x10_0000+k for all of the code, and byte k of the record at 0x1_0000+k |
| `GuestMemory.OffsetsAgree` | ymirc/linux.h:99-112 | the loader's code offset is the protocol's if and only if the image counts at least one setup sector |
| `GuestMemory.CodeInPlaceExactly` | ymirc/arch/x86/vm.c:108-160 | the guest finds the protocol's code at 0x100000 if and only if the image counts a sector or repeats itself four sectors later |
| `GuestMemory.ZeroSectorsMisplaceTheCode` | ymirc/arch/x86/vm.c:108-160 | an image with 0 sectors that is accepted, and whose guest reads image[512] and not image[2560] at 0x100000 |
| `Isolation.UnmaskIopmBit` | ymirc/arch/x86/svm_vcpu.c:97-101 | exactly one bit of the map is cleared |
| `Isolation.SetupIoMap` | ymirc/arch/x86/svm_vcpu.c:104-121 | a port's bit is clear if and only if it is one of the passed-through ports |
| `Isolation.MapsInFull` | ymirc/arch/x86/svm_vcpu.c:89-121 | a port has no exit if and only if its input would be passed through and it is not 0x3FA, so no emulated register is bypassed; all 65536 MSR bits are set |
| `Isolation.VmInit` | ymirc/arch/x86/svm_vcpu.c:89-213 | how it ends is a function of the allocator's state, NullMap included; on success host save area, VMCB, MSR map and I/O map are pairwise disjoint, the maps are filled and the control block is in order and leads to them; however it ends, only frames that were free are written |
| `Vmcb.ConfigureVmcb` | ymirc/arch/x86/svm_vcpu.c:156-200 | the cleared block receives the listed fields, and no other frame is written |
| `Vmcb.ControlsReady` | ymirc/arch/x86/svm_vcpu.c:89-213 | word by word: exactly INTR, CPUID, HLT, IOIO, MSR, VMRUN and VMMCALL are intercepted, nested paging and interrupt masking are on, both map addresses are the given ones, CR0, EFER and RIP 0x10_0000 as set, everything else but the segment registers 0 |
| `Vmcb.TablesSet` | ymirc/arch/x86/svm_vcpu.c:215-218 | set_npt completes the block with the root of the nested tables and changes nothing else |
| `Isolation.NullMapExactly` | ymirc/arch/x86/svm_vcpu.c:89-153 | the unchecked NULL occurs if and only if save area and VMCB are found and then no run of two pages is accepted, or one is and none of three after it |
| `Isolation.ThreeFramesAreTooFew` | ymirc/arch/x86/svm_vcpu.c:89-153 | with three free frames left below a frame_end of 7, save area and VMCB are found and a map is not |
| `Isolation.PrepareVm` | ymirc/arch/x86/vm.c:165-185 | how it ends is a function of the allocator's state and the images; on success no guest address translates into a nested table, one of the four areas, or any frame in use before; all of these and guest memory are disjoint; the control block leads to the maps and the nested tables; the guest sees what was loaded, in terms of the memory before |
| `Isolation.StoreIsConfined` | ymirc/arch/x86/vm.c:165-185 | one guest store changes only the guest's block, and the guest sees that byte and no other change |
| `Isolation.GuestIsConfined` | ymirc/arch/x86/vm.c:165-185 | after any stores of the guest its memory reads as the last byte stored, translations are unchanged, and nothing outside its block has changed |
| `Isolation.GuestCannotEscape` | ymirc/arch/x86/vm.c:165-185 | after any stores of the guest no word outside its block has changed, so none of the control areas, nested tables and everything in use before; the control block and the intercepts are the same, and none of it has become reachable |
| `Isolation.GuestStartsInItsKernel` | ymirc/arch/x86/svm_vcpu.c:199-218 | translated from the root in the VMCB, the RIP in the VMCB is the address of the first byte of the image's protected-mode code |
| `KernelMain.Boots` | ymirc/main.c:47-113 | from a memory map that keeps the boot tables and images out of usable memory: where it ends is a function of the map, the boot tables and the images; at the end the host translates as reconstruction promises, in tables the guest cannot reach, the guest sees the images the boot loader left, and the bins are in order; if it stops after reconstruction the host's mapping still stands, and a NULL map faults |
| `BootWitnesses.TightMachine` | ymirc/main.c:47-113 | a memory map and boot tables on which the whole sequence reaches the NULL map |
| `BootWitnesses.BootClones` | ymirc/arch/x86/page.c:135-171 | reconstruction of those boot tables takes three pages |
| `KernelMain.GuestLeavesHostAlone` | ymirc/main.c:47-113 | whatever the guest stores, every host address goes on translating as it did |
| `KernelMain.ImageSurvives` | ymirc/arch/x86/page.c:135-171 | the kernel image the boot loader placed stays at its physical addresses in leaves with the rights of its segments' flags, and with no page writable and executable |
| `KernelMain.ImageRightsSurvive` | ymirc/arch/x86/page.c:135-171 | the effective rights of its pages also stay those of the flags |
| `KernelMain.PointersTranslate` | ymirc/mem.c:5-26 | the pointers phys2virt makes after the switch are 0xFFFF_8880_0000_0000 plus the address, and the new tables take them where virt2phys does |
| `KernelMain.KernelPointersTranslate` | ymirc/mem.c:5-26 | so do pointers into an image linked at 0xFFFF_FFFF_8000_0000 |
| `SvmIoio.FoldAfterIcw1` | ymirc/arch/x86/svm_ioio.c:279-385 | since the last ICW1 the data bytes are ICW2, a valid ICW3, ICW4 and then masks; phase, base and mask follow from them |
| `SvmIoio.FoldWithoutIcw1` | ymirc/arch/x86/svm_ioio.c:279-385 | without an ICW1 only the mask ever changes |
| `SvmIoio.InitedMeansSequence` | ymirc/arch/x86/svm_ioio.c:279-385 | INITED is reached only by ICW1, ICW2, the valid ICW3 and ICW4, and the base is that ICW2 |
| `SvmIoio.MaskIsLastOcw1` | ymirc/arch/x86/svm_ioio.c:279-385 | the mask is the last byte no initialization sequence claimed; the phase is the count of data bytes since ICW1 |
| `SvmIoio.AcceptedExactly` | ymirc/arch/x86/svm_ioio.c:279-385 | a history is refused if and only if it has a command other than 0x11 and 0x60 to 0x67, or a second data byte after ICW1 that is not the cascade byte |
| `SvmIoio.BaseIsLastIcw2` | ymirc/arch/x86/svm_ioio.c:279-385 | the vector offset is the first data byte after the last ICW1 that had one |
| `SvmIoio.HandlePicOut` | ymirc/arch/x86/svm_ioio.c:279-385 | each controller takes its own write and the other one is untouched; a write that is refused changes nothing |
| `SvmIoio.HandlePicIn` | ymirc/arch/x86/svm_ioio.c:234-277 | returns the mask outside initialization and aborts exactly otherwise |
| `SvmIoio.HandleSerialIn` | ymirc/arch/x86/svm_ioio.c:129-171 | never aborts, and reads what the port's class of inputs says |
| `SvmIoio.HandleSerialOut` | ymirc/arch/x86/svm_ioio.c:173-206 | only IER and MCR are stored, the two status ports abort |
| `SvmIoio.HandleIoioIn` | ymirc/arch/x86/svm_ioio.c:36-78 | RAX by port, or an abort |
| `SvmIoio.HandleIoioOut` | ymirc/arch/x86/svm_ioio.c:80-110 | emulated device state by port, or an abort |
| `SvmIoio.SamePortsBothWays` | ymirc/arch/x86/svm_ioio.c:36-206 | input and output know the same ports but for 0x3FD and 0x3FE, which can only be read |
| `SvmIoio.ProbesFind` | ymirc/arch/x86/svm_ioio.c:36-171 | absent devices read as 0, the other serial ports and delay ports leave RAX alone, timer and serial data come from the hardware |
| `SvmIoio.InfoBits` | ymirc/arch/x86/svm_ioio.c:10-27 | direction and size are bits 0, 4, 5 and 6 of EXITINFO1 |
| `SvmMsr.HandleRdmsr` | ymirc/arch/x86/svm_msr.c:33-48 | only the low halves of RDX and RAX change, to those of the register |
| `SvmMsr.HandleWrmsr` | ymirc/arch/x86/svm_msr.c:50-104 | EFER takes the written value and the TLB flush is requested when LME or NXE is set |
| `SvmMsr.ReadsBackWhatWasWritten` | ymirc/arch/x86/svm_msr.c:25-72 | reading EFER returns the low halves written and keeps the high halves of the registers |
| `SvmMsr.MsrAbortsExactly` | ymirc/arch/x86/svm_msr.c:33-116 | aborts exactly for all but two registers on a read, twelve on a write, and for an unknown direction |
| `SvmMsr.ApicBaseReadsOnes` | ymirc/arch/x86/svm_msr.c:37-40 | register 0x1B reads as all ones in both halves |
| `SvmRun.InjectExtIntr` | ymirc/arch/x86/svm_vcpu.c:224-266 | injects exactly when the gates are open and a line is deliverable: the lowest such line, with only its bit cleared; InjectionFollowsHistory and IntrExitInFull say in bits of the bytes sent which lines those are |
| `SvmRun.RecordAllIs` | ymirc/arch/x86/svm_vcpu.c:386-394 | a line is pending afterwards iff it was or its vector arrived |
| `SvmRun.HandleHlt` | ymirc/arch/x86/svm_vcpu.c:355-363 | waits until something can be injected, recording what arrives |
| `SvmRun.HandleCpuid` | ymirc/arch/x86/svm_cpuid.c:92-170 | aborts exactly on the unknown subleaves of leaves 7 and 0xd; otherwise only the low halves of the registers change |
| `SvmRun.HandleExit` | ymirc/arch/x86/svm_vcpu.c:328-380 | the whole new state for each exit, or an abort |
| `SvmRun.VcpuLoop` | ymirc/arch/x86/svm_vcpu.c:396-414 | the loop over any sequence of events refines the run the theorems are about |
| `SvmRun.HltKeepsExactlyWhenSafe` | ymirc/arch/x86/svm_vcpu.c:355-363 | an HLT exit keeps every held line, whatever arrives, if and only if the entry state is safe; v_irq clear is one such state |
| `SvmRun.InterruptLostAtHlt` | ymirc/arch/x86/svm_vcpu.c:355-363 | a run from the initial state in which the recorded timer line is never taken and no longer held |
| `SvmRun.HeldUntilConsumed` | ymirc/arch/x86/svm_vcpu.c:335-363 | in every run with safe HLT exits a held line stays pending or in flight until the guest takes it |
| `SvmRun.NoIrqLost` | ymirc/arch/x86/svm_vcpu.c:335-394 | the same for every line recorded in any exit of the run |
| `SvmRun.PendingUntilInjected` | ymirc/arch/x86/svm_vcpu.c:224-266 | only a line's own injection clears its pending bit |
| `SvmRun.PicIsHistory` | ymirc/arch/x86/svm_ioio.c:112-385 | in every run each controller equals the fold of the writes to its own ports, whatever else happens between them |
| `SvmRun.PicOutAbortsExactly` | ymirc/arch/x86/svm_ioio.c:279-385 | in every run an output to a controller aborts if and only if it is no byte access, a command other than 0x11 and 0x60 to 0x67, or at the second data byte after ICW1 not 4 for the primary or 2 for the secondary |
| `SvmRun.PicInAbortsExactly` | ymirc/arch/x86/svm_ioio.c:234-277 | in every run an input aborts exactly at a command port, within an initialization sequence, or if it is no byte access |
| `SvmRun.RunWritesAccepted` | ymirc/arch/x86/svm_ioio.c:279-385 | a run that has not aborted has sent neither controller anything it refuses |
| `SvmRun.DataPortReadsLastOcw1` | ymirc/arch/x86/svm_ioio.c:234-277 | in every run a data port reads as the last OCW1 byte |
| `SvmRun.SerialIsHistory` | ymirc/arch/x86/svm_ioio.c:173-206 | in every run the emulated IER and MCR hold the bytes last sent to them, or 0 |
| `SvmRun.SerialReadsBack` | ymirc/arch/x86/svm_ioio.c:129-171 | in every run a read of 0x3F9 or 0x3FC succeeds and returns that byte |
| `SvmRun.InjectionOnlyThere` | ymirc/arch/x86/svm_vcpu.c:328-380 | only INTR and HLT exits change the interrupt state |
| `SvmRun.InjectionFollowsHistory` | ymirc/arch/x86/svm_vcpu.c:224-266 | every injection of a run comes after a complete primary initialization with IF set; the line is the lowest pending one whose bit in the last OCW1 of its controller is 0, for lines 8 to 15 with bit 2 of the primary's 0 as well; the vector is its controller's last ICW2 plus the line's number there, modulo 256 |
| `SvmRun.UnmaskedIsOpen` | ymirc/arch/x86/svm_vcpu.c:224-249 | in every run a line is unmasked if and only if those bits of the last OCW1 bytes are 0 |
| `SvmRun.IntrExitInFull` | ymirc/arch/x86/svm_vcpu.c:335-349 | in every run: if the primary is initialized, IF is set and an open line was pending, in flight or arrives, the lowest such line is injected and the others stay pending; otherwise all of them are pending and the virtual interrupt is as before |
| `SvmRun.HaltedWakesExactly` | ymirc/arch/x86/svm_vcpu.c:355-363 | in every run a halted guest resumes if and only if the primary is initialized, IF is set and an open line is pending or arrives while it waits |
| `SvmRun.ExitChangesOnly` | ymirc/arch/x86/svm_vcpu.c:328-380 | each kind of exit changes its own fields and no other, and only low halves of registers where the source writes 32 bits |
| `SvmRun.CpuidInFull` | ymirc/arch/x86/svm_cpuid.c:92-170 | aborts exactly for leaf 7 above subleaf 2 and leaf 13 other than subleaf 1; otherwise the low halves are the results |
| `SvmRun.TlbFlushTiming` | ymirc/arch/x86/svm_vcpu.c:328-371 | in every run tlb_control is 3 exactly when the exit just handled was a WRMSR to 0xC000_0080 with bit 8 or 11 of EAX set, and 0 otherwise |
| `SvmRun.EferReadsBack` | ymirc/arch/x86/svm_msr.c:25-72 | a RDMSR of EFER later in a run returns the low halves written, if neither guest nor WRMSR changed EFER in between |

## Left out

- Inline assembly, VMRUN and VMSAVE, CR3 and port access: hardware steps appear as events or parameters.
- UEFI calls, file reading and the ELF header: firmware services; the boot loader's page requests are a pool of pages that may run dry.
- Reading segments into the mapped image pages and zeroing the BSS, and a fault when a later segment shares a page that was already made read-only.
- `ymirc/arch/x86/idt.c`, `gdt.c`, `svm_cpuid.c`, `svm_vmmc.c`, `pic.c`, `serial.c`, `interrupt.c`, `ymirc/log.c`: fixed values, flat switches, device plumbing and printing; of CPUID the abort is modelled and the 32-bit results are taken as they are.
- SvmMsr.HandleWrmsr: the values of the registers other than EFER are not kept, because no exit reads them back.
- SvmRun.HandleCpuid: the 32-bit results are inputs and RBX is not part of the state, because they are fixed values of the machine.
- Segment registers, the guest's RSI, and the RIP after the first entry; the VMCB fields the exit handlers use are fields of the virtual CPU and not words of its block.
- Whether an HLT wait ends: it depends on interrupts arriving; a wait that has not ended is a result of its own.
- Caching bits, protection keys, and the contents of the TLB.
- The int type of the boot loader's page count: the count is kept in 64 bits, so images above 8TiB behave differently.
- The three clone functions are one method with the level as a parameter.
- The mapping flag of mem.c is a parameter of each conversion, and switching it is the caller's step after reconstruction.
- PageAllocator.Allocator.AlignedSearch: an alignment of 0 is excluded, because the source's loop then tries the same window again and again.
- PageAllocator.Allocator.AllocAlignedPages: an alignment of 0 is excluded for the same reason.
- PageAllocator.Allocator.Free: a block that ends past the bitmap is excluded, because the source would write out of bounds.
- PageAllocator.Allocator.Init: the memory map is ascending, disjoint, page-aligned and without empty descriptors, as the loop assumes of the firmware.
- NestedPaging.InitNpt: start addresses are multiples of 2MiB, as its only caller passes; a misaligned host address would be rounded down by the processor.
- Reconstruct.ReconstructMapping: the boot tables' level-4 entries are ordinary references with clear bits 52 to 62, where the code's frame mask is wider than the processor's.
- BootPaging.Map4kTo: the path to the page has no large page and no leftover bits in absent entries, since the source does not test for either.
- BootPaging.ChangeMap4k: the page is mapped, since the source follows the entries without testing them.
- BinAllocator.Bins.BinFree: a page block to be freed ends inside the bitmap, past which the source would write out of bounds; nothing is said about the lists after freeing address 0.
- KernelMain.Boots: the boot tables and images lie in frames the map does not call usable, as the boot loader allocates them; where it ends is stated for boot tables whose clones follow only such frames.
- BootImage.PlaceImage: segments share one page-aligned offset and meet the coverage condition; `LastByteLeftOut` says what happens otherwise.
- GuestMemory.LoadKernel: after an overrun nothing is said about memory, as the copy has left every object C knows.
