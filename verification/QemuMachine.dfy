/** The machine of qemu.sh: 512 MB, so the frame of the API page is ordinary memory. */
module QemuMachine {
  import opened Bytes
  import opened Sets
  import opened PmmSpec
  import opened MemoryMap
  import opened Paging
  import opened VmSpec
  import opened VmRange
  import opened VmInit
  import opened HeapSpec
  import opened HeapProofs
  import opened HeapRuns
  import opened VirtualMemory
  import opened KernelApi
  import opened FirstFit
  import opened HeapPlacement
  import opened Spared
  import opened HeapCycles
  import opened Boot
  import opened BootFrames
  import opened MachineFacts
  import opened ApiExact
  import opened ApiRuns
  import Kernel
  import KernelRuns

  const LowMemory: MemEntry := MemEntry(0x1000, 0x9_e000, Usable)
  const HighMemory: MemEntry := MemEntry(0x10_0000, 0x1fed_0000, Usable)
  const KernelImage: MemEntry := MemEntry(0x1ffd_0000, 0x2_0000, KernelAndModules)

  // Memory below and above the hole at 640 KB, the kernel at the end.
  function Entries(): seq<MemEntry> {
    [LowMemory, HighMemory, KernelImage]
  }

  function Qemu(api: seq<byte>): Handover {
    Handover(0xffff_ffff_8000_0000, KernelImage.base, Entries(), 0xffff_8000_0000_0000, api)
  }

  // The allocator after pmm_init.
  predicate Initial(pmm: Pmm) {
    && pmm.total == FrameCount(HighMemory.base + HighMemory.length) && pmm.bytes == BitmapBytes(pmm.total)
    && pmm.free == Covered(Entries()) - Touched(LowMemory.base, pmm.bytes)
  }

  // It is what KernelRuns.Start ensures for this memory map.
  lemma {:induction false} InitialIs(pmm: Pmm)
    requires PmmOk(pmm) && exists end :: IsCeiling(Entries(), end) && pmm.total == FrameCount(end)
    requires exists home ::
      IsBitmapHome(Entries(), pmm.bytes, home) && pmm.free == Covered(Entries()) - Touched(home, pmm.bytes)
    ensures Initial(pmm)
  {
    hide Covered, Touched;
    var e := Entries();
    assert e[0] == LowMemory && e[1] == HighMemory && e[2] == KernelImage;
    var end :| IsCeiling(e, end) && pmm.total == FrameCount(end);
    assert end == HighMemory.base + HighMemory.length;
    var home :| IsBitmapHome(e, pmm.bytes, home) && pmm.free == Covered(e) - Touched(home, pmm.bytes);
    assert Hosts(e[0], pmm.bytes);
  }

  lemma {:induction false} InitialFrames(pmm: Pmm)
    requires Initial(pmm)
    ensures pmm.free == Run(5, 154) + Run(0x100, 0x1_fed0)
    ensures pmm.total == 0x1_ffd0 && pmm.bytes == 16378
  {
    assert Entries()[..2] == [LowMemory, HighMemory] && Entries()[..2][..1] == [LowMemory] && Entries()[..1][..0] == [];
    assert Covered([LowMemory]) == Touched(LowMemory.base, LowMemory.length);
    assert Covered(Entries()[..2]) == Touched(LowMemory.base, LowMemory.length) + Touched(HighMemory.base, HighMemory.length);
    assert Covered(Entries()) == Covered(Entries()[..2]);
  }

  lemma {:induction false} WholeBlocksAre(pmm: Pmm, limit: nat)
    requires Initial(pmm) && 0 < limit <= 255
    ensures WholeBlocks(pmm.free, limit) == Run(1, limit - 1)
  {
    InitialFrames(pmm);
    forall b: nat | b < limit
      ensures WhollyFree(pmm.free, b) <==> b >= 1
    {
      BlockBounds(b);
      assert b == 0 ==> 0 in BlockFrames(b);
    }
  }

  lemma {:induction false} LowFrames(pmm: Pmm)
    requires Initial(pmm)
    ensures |Below(pmm.free, 512)| == 410
  {
    InitialFrames(pmm);
    FirstFrames();
    RunSize(5, 154);
    RunSize(0x100, 0x100);
  }

  lemma {:induction false} FirstFrames()
    ensures Below(Run(5, 154) + Run(0x100, 0x1_fed0), 512) == Run(5, 154) + Run(0x100, 0x100)
    ensures Run(5, 154) !! Run(0x100, 0x100)
  {
  }

  lemma {:induction false} BlockZero(pmm: Pmm)
    requires Initial(pmm)
    ensures NoneBelow(pmm.free, GeometryOf(pmm), 512)
  {
    InitialFrames(pmm);
    assert 0 in BlockFrames(0) && !WhollyFree(pmm.free, 0);
  }

  lemma {:induction false} KernelBytes()
    ensures KernelSize(Entries()) == 0x2_0000
  {
  }

  // What boot can cost on it.
  lemma {:induction false} Cost()
    ensures InitCost(Entries()) + TableBound(1) == 287
  {
    hide TableBound;
    KernelBytes();
    var e := Entries();
    assert e[..2] == [LowMemory, HighMemory] && e[..2][..1] == [LowMemory] && e[..1][..0] == [];
    assert EntriesCost([LowMemory]) == EntryCost(LowMemory);
    assert EntriesCost(e[..2]) == EntryCost(LowMemory) + EntryCost(HighMemory);
    assert EntriesCost(e) == EntriesCost(e[..2]) + EntryCost(KernelImage);
    Bounds();
  }

  lemma {:induction false} Bounds()
    ensures TableBound(1) == 6 && TableBound(1024) == 7 && TableBound(32) == 6
    ensures TableBound(Pages(LowMemory.length)) == 6 && TableBound(Pages(HighMemory.length)) == 261
    ensures Pages(0x2_0000) == 32
  {
  }

  lemma {:induction false} Fits512(mem: Mem, pmm: Pmm, api: seq<byte>)
    requires Initial(pmm) && pmm.total <= |mem| <= FRAME_LIMIT && |api| == API_BYTES
    ensures CanInit(mem, pmm, Qemu(api)) && PmmOk(pmm)
  {
    hide TableBound, InitCost, Run, MemoryFits;
    InitialFrames(pmm);
    Cost();
    KernelBytes();
    Frames512(mem, pmm);
    assert Entries()[0] == LowMemory && Entries()[1] == HighMemory && Entries()[2] == KernelImage;
  }

  lemma {:induction false} Frames512(mem: Mem, pmm: Pmm)
    requires Initial(pmm) && pmm.total <= |mem| <= FRAME_LIMIT
    ensures MemoryFits(mem, pmm) && |pmm.free| >= 0x1_fed0
  {
    hide Initial;
    InitialFrames(pmm);
    RunSize(0x100, 0x1_fed0);
    SubsetSize(Run(0x100, 0x1_fed0), pmm.free);
  }

  lemma {:induction false} OffHeap512(pmm: Pmm, api: seq<byte>)
    requires Initial(pmm)
    ensures OffHeap(pmm, Qemu(api))
  {
    hide Apart, Initial, KernelSize, HeapBytes;
    KernelBytes();
    HeapBytes512(pmm);
    Ranges512();
    Windows512();
    var h := Qemu(api);
    assert h.entries == Entries() && h.kernelVirt == 0xffff_ffff_8000_0000 && h.hhdm == 0xffff_8000_0000_0000;
    assert Entries()[0] == LowMemory && Entries()[1] == HighMemory && Entries()[2] == KernelImage;
  }

  lemma {:induction false} HeapBytes512(pmm: Pmm)
    requires Initial(pmm)
    ensures HeapBytes(pmm) == 255 * BLOCK_SIZE
  {
    hide Run;
    InitialFrames(pmm);
  }

  // The heap's part of the address space and the ranges mapped at boot.
  lemma {:induction false} Ranges512()
    ensures Apart(HEAP_START, 255 * BLOCK_SIZE, 0, 0x400000)
    ensures Apart(HEAP_START, 255 * BLOCK_SIZE, 0xffff_ffff_8000_0000, 0x2_0000)
    ensures Apart(HEAP_START, 255 * BLOCK_SIZE, KERNEL_API_ADDRESS, 4096)
  {
  }

  lemma {:induction false} Windows512()
    ensures Apart(HEAP_START, 255 * BLOCK_SIZE, LowMemory.base + 0xffff_8000_0000_0000, LowMemory.length)
    ensures Apart(HEAP_START, 255 * BLOCK_SIZE, HighMemory.base + 0xffff_8000_0000_0000, HighMemory.length)
  {
  }

  lemma {:induction false} Tables512(mem: Mem, pmm: Pmm, api: seq<byte>, n: nat)
    requires Initial(pmm) && pmm.total <= |mem| <= FRAME_LIMIT && |api| == API_BYTES && n <= 252
    ensures TablesFitBelow(pmm, Qemu(api), n, 512) && |WholeBlocks(pmm.free, pmm.bytes / 64)| >= n + HeapTables(n)
    ensures BlocksSuffice(pmm.free, n) <==> n <= 127
  {
    hide BootPlaces, WholeBlocks, WhollyFree, NoneBelow, Below, InitCost, TableBound;
    InitialFrames(pmm);
    LowFrames(pmm);
    BlockZero(pmm);
    BootPlacesSize(Qemu(api));
    Cost();
    WholeBlocksAre(pmm, 255);
    RunSize(1, 254);
    WholeBlocksAre(pmm, 128);
    RunSize(1, 127);
    Block128(pmm);
  }

  // The heap may have 127 pages: up to there every run leaves the address space and the heap to
  // themselves, whatever is stored in the API page. The 128th page is that frame's block.
  lemma {:induction false} HarmlessUpTo127(mem: Mem, pmm: Pmm, api: seq<byte>, n: nat)
    requires Initial(pmm) && pmm.total <= |mem| <= FRAME_LIMIT && |api| == API_BYTES && n <= 252
    ensures (forall cycles, actions :: Legal(cycles, actions, n) ==>
               Harmless(Working(BootVm(mem, pmm, Qemu(api)), cycles, actions), Total(actions)))
      <==> n <= 127
  {
    hide *;
    Fits512(mem, pmm, api);
    OffHeap512(pmm, api);
    Tables512(mem, pmm, api, n);
    ApiFrame512(mem, pmm);
    BootRunsHarmless(mem, pmm, Qemu(api), n, 512);
  }

  lemma {:induction false} ApiFrame512(mem: Mem, pmm: Pmm)
    requires Initial(pmm) && pmm.total <= |mem|
    ensures API_FRAME < |mem|
  {
  }

  // And the machine is then ready for cycles of that many pages.
  lemma {:induction false} ReadyUpTo127(mem: Mem, pmm: Pmm, api: seq<byte>, n: nat)
    requires Initial(pmm) && pmm.total <= |mem| <= FRAME_LIMIT && |api| == API_BYTES && n <= 252
    ensures CanInit(mem, pmm, Qemu(api)) && PmmOk(pmm) && OffHeap(pmm, Qemu(api)) && ApiSpared(pmm, Qemu(api))
    ensures Ready(BootVm(mem, pmm, Qemu(api)), n) <==> n <= 127
  {
    hide CanInit, OffHeap, BootVm, TablesFitBelow, BlocksSuffice, WholeBlocks, Idle, Room, Spares, HeapTables;
    Fits512(mem, pmm, api);
    OffHeap512(pmm, api);
    Tables512(mem, pmm, api, n);
    BootReadyExact(mem, pmm, Qemu(api), n, 512);
  }

  lemma {:induction false} Block128(pmm: Pmm)
    requires Initial(pmm)
    ensures WhollyFree(pmm.free, 128) && API_FRAME in pmm.free
  {
    InitialFrames(pmm);
    BlockBounds(128);
  }

  // So they hold on it.
  lemma {:induction false} Fitting512(mem: Mem, pmm: Pmm, api: seq<byte>, inputs: seq<Kernel.Input>, payloads: seq<seq<byte>>,
                                      n: nat)
    requires Initial(pmm) && pmm.total <= |mem| <= FRAME_LIMIT && |api| == API_BYTES && n <= 127
    requires |payloads| <= |inputs| && KernelRuns.Modest(inputs, payloads, n)
    ensures KernelRuns.Fitting(mem, pmm, Qemu(api), inputs, payloads, n)
  {
    hide Initial, CanInit, OffHeap, BootVm, Ready, KernelRuns.Modest, ApiSpared, PmmOk;
    ReadyUpTo127(mem, pmm, api, n);
  }
}
