# math-unikernel: memory, numeric kernels and workload download

This project models three parts of math-unikernel and proves what they are for.

**Memory** (`src/pmm.c`, `src/vmm.c`, the loop of `src/kernel.c`). A bitmap hands out 4 KB frames,
contiguous runs and aligned 2 MB blocks; the page-table builder takes its tables from it; the
kernel maps a heap of 2 MB pages for each workload and takes it down again. `PmmSpec`, `VmSpec` and
`HeapSpec` say what each C function does to a value (the set of free frames; the words of physical
memory, the PML4 frame and the allocator). The classes `Pmm.FrameAllocator` and `Vmm.Machine` work
in place on bits and words, with the loops of the source, and leave exactly those values. Everything
else is proved about the values, and `PmmMeaning` says in frames and addresses what a caller gets:

* the tables form a tree of claimed frames (`VmProofs.VmInv`), and each mapping changes one
  translation (`MapPageCorrect`, `MapHugeCorrect`) and takes exactly the frames of the tables that
  were missing (`VmProofs.Grew`);
* `Mmu` is the processor's walk written down on its own, on the 64-bit words, with the rights of all levels
  combined. `Mmu.TranslateIsWalk` says that it sees exactly the translations proved elsewhere;
  `EntryWords` has the stored words bit by bit, `BootAccess` and `HeapAccess` what may be accessed after
  boot and in the heap;
* the mapping functions never check the address the allocator returns, and the 4 KB walk never looks at
  the PS bit: `VmExact` says exactly when they work, `VmFailure` what they do without a free frame,
  `HeapFailure` what the heap does without a free block;
* the heap grows, is written byte by byte, and is reset over any number of cycles (`HeapCycles`,
  `MachineFacts`, `HeapCounts`): no translation changes for good, no frame is lost but the tables of the
  largest heap, and the free-frame counter, which the 2 MB operations do not keep, comes out exact again;
* the page of the kernel API is mapped to physical frame 0x10000, which nothing claims, and the kernel
  stores to it at boot and in every cycle. With more than 256 MB the allocator owns that frame and may
  give it away. `FirstFit` works out which frames first fit takes, `ApiRuns` says exactly which machines
  and heap sizes leave the stores harmless over all runs, `QemuMachine` that the 512 MB machine of
  `qemu.sh` can have heaps of 127 pages and no more. The theorems about runs hold wherever first fit
  leaves the frame alone (`BootFrames.ApiSpared` for boot, `Spared.Spares` for the heaps).

**Numeric kernels** (`src/mathlib.c`). The tiled, vectorised matrix product equals plain nested loops
for every scalar type and every multiply-add, so rounding is included. Dot product, sparse product and
the banded generator are compared with their plain sums over the reals, since the lanes regroup them.

**Workload download** (`src/network.c`, `src/loader.c`). Frames arrive in any order with byte reads; the
receiver collects a header, then writes payloads to their destination. `LoaderSpec` has the loader as a
state machine over arrivals and its own steps, for theorems over all interleavings, and its three loops
as functions of the frames that come, which the methods in `Loader` and `Kernel` equal; `PollTurn` joins
the two. Interrupts are on all the time, so a frame may also come while the kernel does not wait for one:
a `Line` says for each such pause how many do. `Pacing` and `PacingExact` say exactly which lines of
frames a turn delivers: nothing that matches may come between the header and `network_set_dest`. `Wire`
states the protocol in bytes on the wire, from the Ethernet type to the header's twelve bytes.

**The whole kernel.** `Kernel` puts the parts together in the loop of `kernel_main`, and `KernelRuns` says
what holds from boot on: `Start` boots, `Kernel.Kernel.Run` runs cycles, `MachineRuns` says what memory is
after them, `SentIsInMemory` that the bytes sent are in the heap when each workload starts, `WaitingSound`
what memory is when a turn waits for ever. `Delivery.WireToWorkload` goes from the wire to the addresses
the workload runs at, `ApiContents.WorkloadFindsApi` says what it finds in the API struct.

A reader may start from `Delivery.WireToWorkload`, `ApiContents.WorkloadFindsApi`, `Mmu.TranslateIsWalk`,
`KernelRuns.MachineRuns`, `HeapCycles.RunCyclesCorrect`,
`ApiRuns.RunsHarmless`, `QemuMachine.HarmlessUpTo127`, `VmExact.MapPageExact`, `Ledger.RunFromInit`,
`MatrixMultiply.MatrixMultiply`, `Banded.BandedProduct`, `LoaderProofs.HandshakeExact`,
`PacingExact.PollExact` and `Kernel.EveryDownload`.

Conventions. `free` is the set of frames whose bitmap bit is clear. A `Pos` is a place in the tree of
tables, named by the slots that lead there. A `Translation` is the frame and the leaf flags a walk
finds. `Fits(vm, places)` asks for a free frame for each table missing among the places, `Room(vm, k, n)`
for a wholly free 2 MB block for each of n heap pages and each missing table, `Ready(vm, n)` for an empty
heap, that room, and the API frame spared over n pages. Every induction is written
out in a lemma's body; Dafny's automatic induction is switched off throughout.

Where the code differs from its documentation, the model follows the code:

* `spmv_csr` assigns each `y[row]`; the comment above it says it accumulates.
* `README.md` of the repository describes the handshake as a magic frame followed by the size. However a
  sender cuts the header into frames, a payload is loaded if and only if it comes in one
  (`LoaderProofs.HandshakeExact`); sent as the README has it, the size is decoded and the download stalls
  (`LoaderProofs.SplitHandshakeStalls`).
* The protocol of the repository's `README.md` streams the data after the header without a pause. Data
  that comes before the pages are mapped is dropped, and the download then never ends
  (`PacingExact.PollExact`).
* `pmm.free_frames` is not the number of free frames while 2 MB blocks are out; the drift law is
  `count == |free| + 512 * live blocks` (`Ledger.Sound`, `HeapCounts.CountLaw`).

## Model

| member | source | states |
|---|---|---|
| Pmm.FrameAllocator.ClaimFrame | src/pmm.c:21-29 | the frame leaves the free set and the 64-bit counter goes down, or nothing happens when it was claimed |
| Pmm.FrameAllocator.FreeFrame | src/pmm.c:31-38 | the frame joins the free set and the counter goes up, or nothing happens when it was free |
| Pmm.FrameAllocator.HighestUsable | src/pmm.c:40-62 | the result is the largest end of a usable or reclaimable entry, attained, or 0 without one |
| Pmm.FrameAllocator.FindBitmapHome | src/pmm.c:73-83 | the base of the first usable entry with room for the bitmap, or 0 when none has it |
| Pmm.FrameAllocator.constructor | src/pmm.c:64-111 | a frame is free exactly when a usable or reclaimable entry covers it and it holds no byte of the bitmap, said of the two kinds and of addresses; total_frames is the frame in which the last such entry ends, the bitmap's home the first usable entry with room; the counter is the number of free frames, overlapping entries or not |
| MemoryMap.CoveredBelow | src/pmm.c:69-71 | every frame the freeing loop visits lies below total_frames, so every bit it touches is in the bitmap |
| MemoryMap.BitmapPagesBelow | src/pmm.c:105-108 | the frames of the bitmap's own pages lie below total_frames too, whether or not an entry hosts it |
| MemoryMap.ReleaseManagedFree | src/pmm.c:95-103 | the freeing loop over entries that may overlap leaves exactly the covered frames free, and an exact counter |
| MemoryMap.InitialFreeIs | src/pmm.c:95-108 | the frames left free, spelled out by kind and address |
| MemoryMap.LastFrameIs | src/pmm.c:69-70 | no usable or reclaimable entry ends past total_frames, and one ends in its last frame |
| MemoryMap.FirstRoomIs | src/pmm.c:73-83 | the bitmap's home, spelled out |
| Pmm.FrameAllocator.Alloc | src/pmm.c:113-139 | the skip of full bytes and the scan of one byte claim the lowest free frame below total_frames; 0 and no change exactly when there is none |
| Pmm.FrameAllocator.FirstClear | src/pmm.c:127-130 | the lowest clear bit of a byte that is not full |
| PmmSpec.FirstFree | src/pmm.c:113-139 | lowest free frame of a range: free, none free below it, and absent only when no frame of the range is free |
| Pmm.FrameAllocator.Free | src/pmm.c:141-151 | an aligned address frees its frame, any other changes nothing |
| Pmm.FrameAllocator.Alloc2mb | src/pmm.c:155-181 | the lowest wholly free aligned block inside the bitmap is claimed and the counter stays; 0 and no change exactly when there is none |
| PmmSpec.FirstBlock | src/pmm.c:161-172 | lowest wholly free block of a range, and absent only when none is wholly free |
| Pmm.BlockBytes | src/pmm.c:161-170 | 512 frames of a block are all free if and only if its 64 bitmap bytes are zero |
| Pmm.FrameAllocator.Free2mb | src/pmm.c:183-198 | all 512 frames of an aligned block inside the bitmap become free; misaligned or outside addresses change nothing |
| Pmm.FrameAllocator.AllocContiguous | src/pmm.c:202-234 | the scan that skips full bytes agrees with plain first fit: the lowest run of n free frames below total_frames is claimed, no more and no less, and the address of its first frame returned; nothing is claimed, and 0 returned, when no such run exists or n is 0 (a run from frame 0 returns 0 as well) |
| PmmMeaning.ContiguousMeans | src/pmm.c:202-234 | the frames from the returned address on were free, are exactly what left the free set, and no lower start has as many; otherwise 0 and no change |
| PmmMeaning.AllocMeans | src/pmm.c:113-139 | the same for one frame |
| PmmMeaning.BlockMeans | src/pmm.c:155-181 | the same for the 512 frames of an aligned block, counter untouched |
| PmmMeaning.FreeMeans | src/pmm.c:141-151 | exactly the frame of an aligned address comes back and is counted |
| PmmMeaning.FreeBlockMeans | src/pmm.c:183-198 | exactly the 512 frames from an aligned address inside the bitmap come back |
| Pmm.FrameAllocator.ScanFrame | src/pmm.c:210-230 | one turn of the scan: a run is found, lowest of all and below total_frames, or none starts before the frames counted so far |
| PmmSpec.FirstRun | src/pmm.c:202-234 | lowest start of n consecutive free frames below a bound, and absent only when no start works |
| Pmm.BlockedRuns | src/pmm.c:213-231 | claimed frames rule out every run that starts up to the last of them and reaches them, which is why skipping a byte loses no run |
| PmmSpec.ClaimRunFree | src/pmm.c:223-225 | the claiming loop removes exactly the n frames of the run |
| Pmm.FrameAllocator.ClaimFrames | src/pmm.c:223-225 | the loop claims the frames from the start one by one |
| Pmm.BitmapDetermined | src/pmm.c:21-38 | two bitmaps of one length with the same free frames are equal byte for byte |
| Ledger.FreeUndoesAlloc | src/pmm.c:113-151 | freeing what pmm_alloc returned restores free set and counter exactly |
| Ledger.Free2mbUndoesAlloc2mb | src/pmm.c:155-198 | freeing what pmm_alloc_2mb returned restores the state exactly |
| Ledger.StepSound | src/pmm.c:21-234 | each operation whose free matches an allocation keeps free frames, live frames and live blocks a partition of the initial frames, and the drift law of the counter |
| Ledger.RunSound | src/pmm.c:21-234 | the same over every run of matching operations |
| Ledger.RunFromInit | src/pmm.c:64-234 | every run from what pmm_init leaves: the partition, the counter, padding bits past total_frames set for good, and no withheld frame, such as those of the bitmap, ever free or handed out |
| Ledger.HandsOutFreeFrames | src/pmm.c:113-234 | what an operation hands out, as the address it returns says, was free: in no live allocation, and never a frame withheld at the start such as the bitmap's |
| Ledger.CountIsUnclaimed | src/pmm.c:174-197 | in every such run free_frames is the initial number less the single frames out, so it never wraps |
| Paging.SamePageSlots | src/vmm.c:26-41 | two addresses select the same table and slot if and only if they agree in bits 47..12 |
| Paging.SameHugePageSlots | src/vmm.c:103-118 | they select the same PD slot if and only if they agree in bits 47..21 |
| PageTree.LinkTables | src/vmm.c:29-35 | hanging a zeroed, unused frame into an absent slot adds exactly one place to the tree |
| PageTree.LinkWalk | src/vmm.c:29-35 | and changes no translation |
| PageTree.DataFrameWrite | src/vmm.c:131 | writing a frame that is no table changes neither a table nor a translation |
| PageTree.PageLeafWalk | src/vmm.c:40-41 | a PT entry decides the translation of one 4 KB page and no other |
| PageTree.HugeLeafWalk | src/vmm.c:117-118 | a PD leaf or empty entry decides the translation of one 2 MB page and no other |
| EntryWords.LeafWord | src/vmm.c:41 | each bit of the word stored for a 4 KB page: bits 51..12 of the address, the caller's flags, and bit 0 |
| EntryWords.HugeWord | src/vmm.c:118 | each bit of the word stored for a 2 MB page: the same and bit 7 |
| EntryWords.LinkWord | src/vmm.c:35 | the word of a link is the table's address and 3 |
| EntryWords.LeafValues | src/vmm.c:41-118 | the words for the flags the kernel and the drivers use, as numbers |
| Mmu.TranslateIsWalk | src/vmm.c:23-121 | in every sound state the processor, walking the words and combining the rights of all levels, reaches exactly what the translations say, and may write and execute exactly where the leaf allows it |
| VmProofs.NextTableEffect | src/vmm.c:26-38 | one level of either walk keeps the tree and every translation and takes a free frame exactly when the table was missing |
| VmProofs.DescendEffect | src/vmm.c:26-38 | the whole descent adds exactly the missing tables of the path |
| VmProofs.GrewTrans | src/vmm.c:23-44 | effects on tables and frames compose: tables added, frames taken and untouched frames add up |
| VmProofs.GrewSize | src/vmm.c:29-35 | each added table costs exactly one free frame |
| VmProofs.MapPageCorrect | src/vmm.c:23-44 | the page gets the given frame and flags, every other translation is unchanged, the tables stay a tree of claimed frames, and only missing tables of the path leave the free set |
| VmProofs.MapHugeCorrect | src/vmm.c:100-121 | the same for a 2 MB page: its 512 pages get the frames of the block, all others keep theirs |
| VmExact.MapPageExact | src/vmm.c:23-44 | in every sound state mapping works, tables, effect and translation, if and only if no 2 MB leaf maps the address and the free frames suffice for the missing tables |
| VmExact.HugeLeafInTheWay | src/vmm.c:29-41 | with a 2 MB leaf in the way one word of its block is overwritten, all translations stay and the page is not mapped |
| VmFailure.DescendFails | src/vmm.c:26-38 | with too few frames the descent uses them up, then clears frame 0, which was not free, hooks it up in the slot it reached and below itself, as often as levels are left; the resulting memory is given exactly |
| VmFailure.MapPageFails | src/vmm.c:23-44 | so vmm_map_virt_to_phys leaves exactly that memory, with the leaf in frame 0, and no free frame |
| VmFailure.MapHugeFails | src/vmm.c:100-121 | the same for the 2 MB form |
| VmFailure.FirstWithoutPt | src/vmm.c:29-41 | with only the PT missing the page looks right, on frame 0 as a PT the allocator gave to nobody |
| VmFailure.SecondTakesFirst | src/vmm.c:29-41 | a second page mapped that way takes the first away: both go through frame 0, which holds the second only |
| VmRange.MapRangeCorrect | src/vmm.c:46-50 | exactly the pages of the range get the intended frames in order, also where the range wraps around 48 bits, and exactly the missing tables are added |
| VmRange.RangePlacesSize | src/vmm.c:46-50 | n pages need at most n/512, n/512^2 and n/512^3 tables, rounded up, and one more of each, wherever the range lies |
| VmRange.MapRangeBound | src/vmm.c:46-50 | with that many free frames the range is mapped, and the frames it takes are counted exactly and stay within the bound |
| VmInit.PrepPml4Correct | src/vmm.c:17-21 | the cleared root is a tree of one claimed frame that translates nothing |
| VmInit.InitCorrect | src/vmm.c:52-79 | vmm_init yields exactly the direct map, over it the kernel and identity ranges where they are not covered, and nothing else, on a tree of frames the allocator gave |
| VmInit.DirectMap | src/vmm.c:66-73 | every address p of a usable, reclaimable or framebuffer entry is found at p + hhdm_offset, writeable, whatever else was mapped |
| VmInit.NothingElse | src/vmm.c:52-79 | an address of the direct map in no such entry, nor in the kernel image or the first 4 MB, is not mapped |
| VmInit.KernelSizeIs | src/vmm.c:57-62 | the kernel's size is the length of the last entry of its kind, 0 without one |
| VmInit.KernelAndIdentity | src/vmm.c:55-64 | the kernel image and the first 4 MB translate as intended when the ranges are apart |
| VmInit.TablesReachable | src/vmm.c:17-79 | every table vmm_init built and every frame still free is reached through the direct map of the new tables |
| Boot.InitHeapClear | src/vmm.c:52-79 | after vmm_init no heap page is mapped or has a page table |
| Boot.MappedCorrect | src/kernel.c:88-110 | with the API page mapped the heap is empty, every other translation is that of vmm_init, tables lie on the allocator's frames and every other frame is as it was |
| BootFrames.BootCorrect | src/kernel.c:88-128 | where boot puts no table on the API frame, the stores of the API struct change none of that but the contents of that frame, whether or not the allocator owns it |
| BootFrames.ApiSparedExact | src/kernel.c:88-110 | boot puts no table there if and only if the frame is not the allocator's or has more of its free frames below it than boot has tables below the root |
| BootFrames.BootPlacesSize | src/vmm.c:52-79 | the tables of boot are at most the sum of the bounds of its ranges |
| BootFrames.BootLeaves | src/kernel.c:88-128 | boot costs at most one wholly free block for each table, and none at or above a frame with a free frame below it for each table |
| BootAccess.BootTranslate | src/kernel.c:88-128 | the processor's view after boot: the API page at 0x10000000 on its own frame, everything else as vmm_init left it |
| BootAccess.DirectMapAccess | src/vmm.c:66-73 | after boot every byte of an entry of the three kinds may be read, written and executed in the direct map |
| BootAccess.NoOtherAccess | src/vmm.c:52-79 | and nothing else of the direct map can be accessed |
| ApiExact.ApiStoreExact | src/kernel.c:111-128 | a store through the API page, whatever field and byte, keeps tables and translations if and only if no page table lies on its frame |
| ApiExact.BootStoresExact | src/kernel.c:110-128 | at boot that holds if and only if the frame is not the allocator's or has more of its free frames below it than boot has tables below the root |
| BootFrames.BootTakes | src/vmm.c:17-79 | boot takes one frame for the root and one for each table the ranges need, and the frames taken are the tables |
| FirstFit.TakenExact | src/pmm.c:113-139 | first fit took a frame if and only if fewer lie below it than were taken |
| FirstFit.Replay | src/vmm.c:123-155 | after a reset the same number of pages takes the same blocks again, and with the tables in place no frame more |
| FirstFit.LowBlocksSpare | src/pmm.c:113-181 | with a wholly free block below a bound for every page and every table, nothing from the bound on is taken |
| FirstFit.SparedExact | src/pmm.c:113-181 | when the tables fit below all wholly free blocks, a block keeps its first frame if and only if it is broken up or the wholly free blocks below it are enough for the pages |
| ApiExact.ApiStoreKeepsFrames | src/kernel.c:111-139 | such a store keeps the contents of given frames, the bitmap's for example, if and only if the API frame is none of them |
| ApiRuns.HeapOnApiFrame | src/kernel.c:110-139 | with a heap page on the API frame a store to the API page changes what the heap holds |
| ApiRuns.GrowthHarms | src/vmm.c:123-137 | growth that takes the API frame, for a table or for a page, ends in such a state or with a store that changes the address space |
| ApiRuns.RunsHarmless | src/kernel.c:110-187 | in every state of every run of cycles of up to n pages every store to the API struct keeps tables, translations and all heap bytes, if and only if first fit spares the frame over n pages |
| ApiRuns.BootReadyExact | src/kernel.c:82-187 | from the allocator before boot, when all tables fit below the wholly free blocks: boot spares the frame and there is room for n pages, and the heaps spare it if and only if its block is broken up or the blocks below it are at least n |
| ApiRuns.BootRunsHarmless | src/kernel.c:82-187 | on such a machine all runs of up to n pages are harmless if and only if that holds |
| ApiRuns.BootReady | src/kernel.c:82-187 | otherwise it is enough to have a wholly free block for every page and every table of boot and heap, below the API frame if the allocator owns it |
| QemuMachine.InitialIs | src/pmm.c:64-111 | what pmm_init leaves for a 512 MB memory map: its total and the home of its bitmap are determined |
| QemuMachine.HarmlessUpTo127 | qemu.sh:13-21 | with 512 MB, usable low memory and the rest above 1 MB, all runs are harmless if and only if no heap has more than 127 pages; the 128th is the API frame's block |
| QemuMachine.ReadyUpTo127 | qemu.sh:13-21 | and that machine is ready for heaps of exactly those sizes |
| QemuMachine.Fitting512 | qemu.sh:13-21 | so it meets what the theorems about whole runs ask for |
| Vmm.Machine.Follow | src/vmm.c:29-37 | in place: one level made if absent and followed, as specified |
| Vmm.Machine.FindTable | src/vmm.c:26-38 | in place: the level loop of both mapping functions equals the descent |
| Vmm.Machine.MapVirtToPhys | src/vmm.c:23-44 | in place: memory and allocator become those of the specification that MapPageCorrect is about |
| Vmm.Machine.MapVirtToPhysHugePage | src/vmm.c:100-121 | in place: the same for 2 MB pages |
| Vmm.Machine.MapRange | src/vmm.c:46-50 | in place: the page loop equals the specification of the range |
| Vmm.Machine.constructor | src/vmm.c:52-81 | in place: vmm_init equals its specification, next_virt_addr starts at HEAP_START |
| Vmm.Machine.MapDirect | src/vmm.c:66-73 | in place: the loop over entries maps those and only those the direct map covers |
| Vmm.Machine.FindKernelSize | src/vmm.c:57-62 | the length of the last kernel entry, 0 without one |
| Vmm.Machine.AllocHugePage | src/vmm.c:123-137 | in place: the start is the next multiple of 2 MB, next_virt_addr moves past n pages, and the state is the one the heap lemmas are about |
| Vmm.Machine.ZeroVirtual | src/vmm.c:131 | in place: every frame the page's addresses lead to is cleared, through the tables |
| Vmm.Machine.ResetHeap | src/vmm.c:139-155 | in place: the reset loop equals its specification, next_virt_addr is HEAP_START again |
| HeapProofs.AllocOneCorrect | src/vmm.c:128-134 | one turn puts the next heap page on the lowest wholly free block, zeroed, holding no table, and changes no other translation |
| VmExact.AllocOneExact | src/vmm.c:128-134 | it does so if and only if there is a wholly free block and beside it a free frame for every missing table |
| HeapFailure.AllocWithoutBlock | src/vmm.c:128-134 | with no wholly free block and block 0 holding no table the heap page leads to physical 0 to 2 MB, which is zeroed although it belongs to someone else |
| HeapFailure.ResetFreesBlockZero | src/vmm.c:139-155 | the reset then frees block 0, which was claimed and which nobody had allocated for the heap |
| HeapFailure.AllocZeroesRoot | src/vmm.c:131 | with the PML4 in the first 2 MB and the lowest of all tables and free frames, such an allocation zeroes it and no translation is left |
| HeapEnd.BootRootLowest | src/vmm.c:17-21 | after boot the PML4 is the lowest of all tables and free frames |
| HeapEnd.NoBlockLeft | src/vmm.c:123-155 | so at any point of any run after boot a heap page without a block has one of two ends: with the PML4 in the first 2 MB no translation is left; otherwise the page lies on block 0, zeroed, which no one was given and the reset frees |
| HeapFailure.MapHugeOverPt | src/vmm.c:100-121 | over 4 KB pages every translation still comes out right, and exactly the PT's frame stays claimed without being a table |
| HeapRuns.FramesLess | src/pmm.c:113-139 | each frame taken costs at most one wholly free block |
| HeapPlacement.AllocFromCorrect | src/vmm.c:123-137 | with a wholly free block for every page and every missing table no allocation fails, n pages appear on n distinct zeroed blocks with the given flags, and blocks and table frames are the ones first fit names |
| HeapAccess.GrownAccess | src/vmm.c:123-137 | every byte of the new pages lies at its offset in its block, writeable if the flags have bit 1, executable unless they have bit 63; with flags 3 the leaf is 0x83 |
| HeapRuns.HeapBelowCap | src/vmm.c:123-137 | heap blocks and wholly free blocks are distinct blocks of memory, so the heap never outgrows its part of the address space |
| MachineFacts.HeapOneToOne | src/vmm.c:123-137 | heap pages map one-to-one to frames, none of them free and none a page table |
| HeapProofs.ResetOneCorrect | src/vmm.c:140-153 | one turn of the reset unmaps one page and frees exactly its block |
| HeapProofs.ResetHeapCorrect | src/vmm.c:139-155 | after the reset no heap page is mapped, every block is free, all other translations and all tables are what they were |
| HeapCycles.WriteEffect | src/kernel.c:137-166 | a store in the heap or in the API page touches no table and no translation, and no frame but the heap's and the API frame |
| HeapCycles.RunActionsCorrect | src/kernel.c:137-166 | any list of heap growth, heap stores and stores to the API page keeps the heap sound, on the blocks of first fit |
| HeapCycles.CycleCorrect | src/kernel.c:134-187 | a cycle, with the kernel's own stores to the API page, keeps every translation, the only frames gone are those of tables its heap was the first to need, and the machine is ready for as many pages as before |
| HeapCycles.RunCyclesCorrect | src/kernel.c:134-187 | over any number of cycles of at most n pages every allocation succeeds, translations are what they were, and only the tables of the largest heap are gone |
| Spared.SparesAgain | src/vmm.c:139-155 | what spares the API frame for n pages before a cycle spares it after the reset |
| Spared.SparesFromBlocks | src/vmm.c:123-137 | a wholly free block below the API frame for every page and every table spares it |
| HeapCycles.SteadyCycle | src/vmm.c:139-155 | a cycle that reaches no further than an earlier one leaves free frames and tables exactly as it found them |
| MachineFacts.HeapPlacesSize | src/vmm.c:103-115 | a heap of n pages needs at most n/512 PDs and n/512^2 PDPTs, rounded up |
| MachineFacts.RoomFromBlocks | src/vmm.c:123-137 | n wholly free blocks and one for each such table are room enough, whatever tables exist |
| MachineFacts.ReadyFromBlocks | src/vmm.c:123-137 | with as many below the API frame, if the allocator owns it, the machine is ready for n pages |
| MachineFacts.NoLeak | src/kernel.c:134-187 | any number of cycles of at most n pages costs no more frames than those tables |
| MachineFacts.OthersKept | src/kernel.c:134-187 | frames that were neither free nor tables are never written, the API frame apart |
| MachineFacts.TablesAlwaysReachable | src/vmm.c:37 | at any point of any run after boot every table, and every frame that may become one, is reached through the direct map |
| HeapCounts.GrowthCounts | src/pmm.c:174-176 | heap growth makes the counter exceed the free frames by 512 for each page, new tables counted right |
| HeapCounts.CycleCounts | src/pmm.c:174-197 | at the end of a cycle the counter is exact again |
| HeapCounts.RunCyclesCount | src/kernel.c:134-187 | after any run of cycles free_frames is the number of free frames |
| HeapCounts.BootCounts | src/kernel.c:88-110 | boot leaves the counter exact |
| MatrixMultiply.MatrixMultiply | src/mathlib.c:26-57 | six tiled loops with eight lanes: every cell of the padded result is the fold of fma over k ascending from zero, rows past n stay zero, nothing past the result is written |
| MatrixMultiply.Tile | src/mathlib.c:42-53 | a tile adds its terms, in order, to its cells and to no other |
| MatrixMultiply.RowUpdate | src/mathlib.c:46-51 | the innermost loop adds one term to the cells of one row piece, eight at a time |
| MatrixMultiply.LaneCell | src/mathlib.c:47-50 | the eight lanes of a store are eight cells of one row and no others, under the padded stride |
| MatrixMultiply.StoreAdvances | src/mathlib.c:47-50 | one store advances exactly those cells by one term |
| MatrixMultiply.FoldIsInnerProduct | src/mathlib.c:26-57 | over the reals that fold is the inner product of row and column |
| MatrixMultiply.PaddingStaysZero | src/mathlib.c:30-32 | padding columns of the result are zero where those of b are |
| Sparse.DotProduct | src/mathlib.c:6-23 | the lanes add up to the sum of all products up to the next multiple of 8 |
| Sparse.ZeroPadding | src/mathlib.c:9-13 | which is the dot product when the padding products are zero |
| Sparse.FmaddAdds | src/mathlib.c:101-117 | one vector step adds the next eight products to the lanes' total |
| Sparse.SpmvRow | src/mathlib.c:87-130 | lanes, their sum and the scalar tail give the sum over the stored values of a row |
| Sparse.StoredIsDense | src/mathlib.c:87-130 | that sum is the row of the dense product, repeated columns adding up |
| Sparse.SpmvCsr | src/mathlib.c:84-134 | y becomes the product of the dense matrix the arrays denote with x, assigned over what it held; the rest of y stays |
| Banded.GenerateBandedMatrix | src/mathlib.c:159-186 | row pointers are the running counts on 32 bits, each row stores the columns of its band with their weights, the total is returned |
| Banded.StoreRow | src/mathlib.c:173-181 | the column loop stores one row and leaves the values before it |
| Banded.BandedRows | src/mathlib.c:159-186 | while nnz fits 32 bits, row pointers ascend from 0 to nnz and each row lists strictly ascending exactly the columns at distance at most the band width |
| Banded.BandedIsCsr | src/mathlib.c:159-186 | it meets what spmv_csr's accesses need when nnz + 8 fits 32 bits |
| Banded.BandedDense | src/mathlib.c:176-178 | the matrix denoted is 1/(1 + distance) inside the band and 0 outside, and symmetric |
| Banded.BandedProduct | src/mathlib.c:84-186 | the sparse product of the generated matrix is the sum of x[c]/(1 + distance) over the band of each row |
| Banded.BandedCount | src/mathlib.c:184-185 | nnz is N(2b+1) - b(b+1) for b up to N, and N^2 from there on |
| Banded.RowPointersExact | src/mathlib.c:164-184 | the 32-bit row pointers are the true counts if and only if nnz is below 2^32 |
| Network.Receiver.constructor | src/network.c:7-14 | the static initial state |
| Network.Receiver.SetDest | src/network.c:27-31 | new destination and size, nothing received |
| Network.Receiver.ResetHeader | src/network.c:37-42 | back to header mode; what was received stays |
| Network.Receiver.ReceiveFrame | src/network.c:44-79 | short and foreign frames change nothing; a header is cut to 16 bytes; data is appended until the expected size, and lost without destination |
| Network.Receiver.Append | src/network.c:72-75 | exactly the bytes still wanted are written, behind those received |
| Network.Receiver.ReadEthernet | src/network.c:81-105 | after the frames that came since the last read, the read takes frames until there is a byte and no more, then returns the next header byte, or 0 once data has come |
| NetworkSpec.AwaitIsLeast | src/network.c:84-102 | the wait takes the fewest frames that bring a byte: before the last of them there was none |
| NetworkSpec.HeaderRead | src/network.c:88-94 | a read with header bytes left gives the next one and ends header mode with the twelfth |
| NetworkSpec.DataRead | src/network.c:98-104 | a read after the header gives 0, exactly when some data has come |
| Wire.ForeignFrame | src/network.c:44-48 | a frame of at most 14 bytes, or without 0x88 and 0xB5 at bytes 12 and 13, changes nothing |
| Wire.HeaderChunk | src/network.c:53-67 | the bytes from the fifteenth on replace the header buffer, cut to 16, and are read from the start |
| Wire.DataChunk | src/network.c:69-75 | later ones are appended to the destination as far as they are expected; without destination, or with all there, they leave no trace |
| NetworkProofs.FrameKeeps | src/network.c:44-79 | a frame keeps the destination equal to the payloads in order, cut at the expected size, then what was there before |
| NetworkProofs.RunNetSafe | src/network.c:27-105 | so does every interleaving of frames, reads, resets and new destinations, with received at most expected and header reads below 12 |
| LoaderProofs.LittleEndianBound | src/loader.c:17-24 | i bytes stay below 256^i |
| LoaderSpec.BytesApart | src/loader.c:19-22 | so a byte shifted above them meets them in no bit of the 64 |
| LoaderSpec.OrIsSum | src/loader.c:21 | and or-ing it in adds it |
| LoaderSpec.OrIntoMagic | src/loader.c:10-11 | so does or-ing a byte into the shifted magic |
| Wire.LastFourBytes | src/loader.c:8-12 | whatever bytes came before, the magic is found if and only if the last four are 0x47, 0x4F, 0x21, 0x21 |
| LoaderProofs.SizeRoundTrip | src/loader.c:16-24 | decoding the sender's bytes gives every 64-bit size back |
| LoaderProofs.HeaderByte | src/loader.c:6-24 | each header byte in turn takes the magic scan and the size loop one step on |
| LoaderProofs.DownloadStep | src/loader.c:6-32 | one event that keeps to the protocol leaves the state its payloads so far call for |
| LoaderProofs.DownloadRun | src/loader.c:6-32 | so does every interleaving and every chunking |
| LoaderProofs.DownloadDelivers | src/loader.c:6-32 | when the loader is done it has decoded the size sent and the destination begins with that many bytes of the payloads |
| LoaderProofs.DownloadProgress | src/loader.c:6-32 | it does get done: a fixed number of steps from the header to the size, one step from the last byte to the end |
| LoaderProofs.HeaderModeEnds | src/network.c:81-96 | a header frame used up leaves header mode if and only if it had 12 payload bytes |
| LoaderProofs.ShortHeadersNeverLoad | src/network.c:81-96 | as long as no frame before the destination is set has 12 payload bytes, header mode never ends and no run loads a payload |
| LoaderProofs.HandshakeExact | src/loader.c:6-32 | a sender that cuts magic and size into frames anywhere and then sends enough data: the payload is loaded if and only if the header came in one frame |
| LoaderProofs.SplitHandshakeStalls | README.md:273-276 | magic and size in two frames: the size is decoded, but the receiver still collects headers |
| LoaderProofs.StalledForever | src/loader.c:26-32 | from there no frames ever complete the download |
| LoaderProofs.NeverUnlocks | src/loader.c:6-14 | twelve header bytes without the magic: the loader never unlocks |
| LoaderProofs.EarlyFrameIsLost | src/network.c:69-75 | data before network_set_dest, or after a finished download, leaves no trace |
| Loader.Unlock | src/loader.c:6-14 | in place: the loop takes exactly the frames and bytes of its function, and says so where it would wait for ever or read zeros for ever |
| Loader.PollPayloadSize | src/loader.c:16-24 | in place: the same for the eight bytes of the size |
| Kernel.Kernel.PollPayload | src/loader.c:26-32 | in place: the destination is set, frames are taken until the expected bytes are there and no longer, and at each point memory holds exactly the bytes received so far |
| PollTurn.PollIsRun | src/kernel.c:136-158 | the turn is a run of the loader's state machine over exactly the frames it took, those that came while it did not wait included |
| PollTurn.FullHeader | src/network.c:69-75 | from the end of one download to the next network_set_dest no frame stores anything, whenever it comes |
| Pacing.PollDelivers | src/kernel.c:136-158 | whatever the receiver did before: if the first matching frame begins with the header, the later ones hold enough bytes, and none of them comes before network_set_dest, the turn completes with the size and the bytes that were sent |
| Wire.WireDelivers | src/kernel.c:136-158 | in bytes on the wire: when the first chunk begins with GO!! and the eight size bytes, the later ones hold as many bytes, and the pace is kept, the destination begins with the later chunks, one after another |
| Wire.SenderDelivers | src/kernel.c:136-158 | so for a sender that sends twelve address bytes, the type and a chunk in each frame |
| PacingExact.TurnNeeds | src/kernel.c:136-158 | a turn that ends has got its bytes from frames that came after twelve pauses at least: eleven more reads and the mapping of the pages |
| PacingExact.PollExact | src/kernel.c:136-158 | a sender that sends no more than it announces is served if and only if none of its data comes before network_set_dest |
| Words.SetByteBytes | src/network.c:74 | storing a byte in a word changes that byte and no other |
| VirtualMemory.StoreThenLoad | src/network.c:74 | a load after a store gives the stored byte where both lead to it, and what was there elsewhere |
| PayloadMemory.PayloadPages | src/kernel.c:148-150 | the page count is the least that holds the payload, and every payload byte falls into one of the pages |
| PayloadMemory.CycleInHeap | src/kernel.c:145-155 | the stores of the received bytes stay in the pages mapped for them |
| PayloadMemory.PayloadInMemory | src/kernel.c:148-156 | during the download and after it each byte that has come is found at HEAP_START and on |
| PayloadMemory.PayloadFrames | src/network.c:72-75 | in a frame that is claimed and no page table |
| HeapAccess.PayloadAccess | src/kernel.c:152-167 | when the workload starts the processor finds each of those bytes at 0xffff900000000000 and on, in memory it may write and execute |
| Kernel.Kernel.Download | src/kernel.c:148-156 | pages, while frames may come, then exactly the received bytes stored in them |
| Kernel.Kernel.Poll | src/kernel.c:136-160 | the API fields are cleared; the turn completes exactly when its function of the frames and pauses does, and memory holds the pages and the bytes received, whether or not it completes |
| Kernel.Kernel.Execute | src/kernel.c:162-171 | the workload's actions, the frames that come meanwhile, then the reset |
| Kernel.Kernel.Run | src/kernel.c:130-187 | the loop of states: the payloads are exactly those the frames given bring, it stops early exactly where a turn would wait for ever, and memory is that of the cycles with these payloads, and of the waiting turn after them |
| Kernel.EveryDownload | src/kernel.c:130-187 | if each cycle's frames hold a header and enough data, every cycle completes with the bytes that were sent as long as the frames keep the pace; for senders that send no more than they announce only then |
| Kernel.NoLateStores | src/kernel.c:130-187 | in every cycle of a run, frames before the destination is set and frames during the workload store nothing |
| KernelRuns.Start | src/kernel.c:82-132 | boot from the memory map, with the API struct: the machine is the one MachineRuns starts from, on an allocator with exactly the frames pmm_init leaves |
| KernelRuns.MachineRuns | src/kernel.c:88-187 | boot and any number of cycles of at most n pages: heap empty, translations those of boot, counter exact, a bounded number of frames gone, and no frame written but the allocator's and the API frame |
| KernelRuns.BitmapUntouched | src/pmm.c:85-90 | so the frames the bitmap lies on are written by nothing but the allocator, as long as the API frame is none of them |
| KernelRuns.EveryPayload | src/kernel.c:134-167 | in each cycle, when the workload starts, its payload is in the heap byte by byte |
| KernelRuns.SentIsInMemory | src/kernel.c:130-167 | from frames to memory: with frames that hold a header and enough data and keep the pace every cycle completes, and the bytes sent are in the heap when its workload starts |
| Delivery.WireToWorkload | src/kernel.c:130-167 | from the wire to the workload: in every cycle, byte o of the later chunks is at 0xffff900000000000 + o when the workload starts, writeable and executable |
| ApiContents.BootBytes | src/kernel.c:111-128 | after boot the 128 bytes of the struct are on the API frame |
| ApiContents.CycleKeeps | src/kernel.c:134-187 | a cycle keeps the bytes of the struct before output_buffer, if its workload does |
| ApiContents.WorkloadFindsApi | src/kernel.c:137-164 | each workload finds at 0x10000000 the fields up to output_buffer as stored at boot, and output_buffer and output_size zero |
| ApiStruct.GrowthKeeps | src/vmm.c:123-137 | heap growth writes no frame but tables and the blocks it takes, free ones included |
| KernelRuns.WaitingSound | src/loader.c:26-32 | a turn that waits for ever leaves sound tables and a sound heap of the pages it mapped, with the bytes that have come in them |

## Left out

- Pmm.FrameAllocator.Alloc2mb: requires a bitmap below 2^31 bytes (64 TB of memory), because the filling loop counts with an int.
- Pmm.FrameAllocator.constructor: the bitmap is an array of its own, not words of physical memory; KernelRuns.BitmapUntouched is why that makes no difference while the API frame is off it. NULL entries are not modelled, and entries must end below 2^64.
- Vmm.Machine.MapVirtToPhys: callers' flags are the 24 bits outside VMM_ADDR_MASK, so they cannot overlap the address; frame numbers written by it are taken modulo 2^40.
- Vmm.Machine.Follow: physical memory past its end reads as zero and loses writes.
- Vmm.Machine.AllocHugePage: an access to an unmapped page would fault; the model skips it, in clearing and in stores.
- HeapFailure.AllocWithoutBlock: the frames of block 0 must be claimed and hold no page table. After boot that is so unless the PML4 lies there (HeapEnd.NoBlockLeft); states in which other tables lie there without the PML4 cannot be reached and are not described.
- HeapEnd.NoBlockLeft: asks for a frame for each table the page needs; a mapping without one is VmFailure.MapHugeFails.
- Vmm.Machine.ResetHeap: is proved for a heap of 2 MB pages only, which is what the kernel builds. vmm_alloc and its 4 KB heap pages are not modelled.
- VmProofs.MapPageCorrect: leaves above the PD (1 GB pages) are excluded by the invariant, since no function writes one.
- BootFrames.BootCorrect: asks that boot puts no table on the API frame; ApiExact.BootStoresExact says what happens otherwise. What a run does after a harmful store to the API page is not followed.
- BootFrames.BootTakes: boot also scans the PCI bus before it maps the API page (src/kernel.c:93), where the network driver takes four contiguous frames, or 33 frames and a mapped register range. Those are not counted, here and in ApiExact.BootStoresExact.
- KernelRuns.Start: the network driver's frames and mappings are not made.
- QemuMachine.HarmlessUpTo127: is about one memory map of 512 MB; a boot loader may cut memory into other pieces, which ApiRuns.BootRunsHarmless covers. The driver's four frames come from low memory on it.
- MatrixMultiply.MatrixMultiply: scalars are uninterpreted; n_padded^2 must be an array length, so its 64-bit overflow does not arise. Alignment of vector loads is not modelled.
- Sparse.SpmvRow: exact arithmetic over the reals, no rounding; row pointers stay 8 below 2^32, beyond which the source's i + 8 wraps.
- Banded.GenerateBandedMatrix: num_rows + band_width fits a signed 64-bit integer, beyond which the source's arithmetic overflows.
- Network.Receiver.ReadEthernet: where the source would wait for ever the read says so; waiting with interrupts and nic_poll is the line of frames still to come. Frames come between reads and while the kernel waits, not between the instructions of one read after its wait, nor between the three stores of network_set_dest.
- Loader.Unlock: where the source would read zeros or wait for ever it returns and says so.
- Kernel.Kernel.PollPayload: the bytes of a frame are stored in memory after the frame has been received, not in the midst of it; nothing else runs in between.
- Kernel.Kernel.Run: the workload is any list of heap growth and byte stores to the heap and the API page; it is not executed. Frames that come after a download has ended come while its workload runs.
- Mmu.TranslateIsWalk: accesses of the kernel's own privilege level, with write protection and no-execute enabled; TLB invalidation and the load of CR3 are not modelled, a translation is the walk of the current tables.
- Drivers, PCI, serial, interrupts, GDT and IDT, display and fonts, timers, and the memory functions of lib.c: effects on hardware, or only easy members.
- init_vector_deterministic and init_matrix_deterministic: fill patterns without a property to prove.
- The EXTRACTING state's output: the source has it commented out.
