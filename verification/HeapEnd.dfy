/** The booted machine when no 2 MB block is left for a heap page: what is lost then. */
module HeapEnd {
  import opened Wrappers
  import opened PmmSpec
  import opened MemoryMap
  import opened Paging
  import opened PageTree
  import opened VmSpec
  import opened VmProofs
  import opened VmInit
  import opened HeapSpec
  import opened HeapProofs
  import opened VirtualMemory
  import opened HeapRuns
  import opened HeapFailure
  import opened KernelApi
  import opened FirstFit
  import opened Spared
  import opened HeapCycles
  import opened Boot
  import opened BootFrames

  // ---- the root stays the lowest frame -----------------------------------------------------------

  lemma {:induction false} RootLowestKept(a: Vm, b: Vm, s: set<Pos>, x: set<nat>)
    requires ApiIsData(a) && GrewButApi(a, b, s, x) && RootLowest(a)
    ensures RootLowest(b)
  {
    hide IsTable, GrewButApi, TableAt;
    ButApiIs(a, b, s, x);
    forall p | At(b, p).Some?
      ensures b.root <= At(b, p).value
    {
      if p in Missing(a, s) {
        assert At(b, p).value in Added(a, b, s);
      }
    }
  }

  // Boot takes its root first.
  lemma {:induction false} BootRootLowest(mem: Mem, pmm: Pmm, h: Handover)
    requires CanInit(mem, pmm, h) && PmmOk(pmm) && OffHeap(pmm, h) && ApiSpared(pmm, h)
    ensures RootLowest(BootVm(mem, pmm, h))
  {
    hide *;
    BootCorrect(mem, pmm, h);
    MappedCorrect(mem, pmm, h);
    FreeThere(mem, pmm, h);
    StoredRoot(mem, pmm, h);
    RootFirst(mem, pmm);
    PoolAbove(BootVm(mem, pmm, h), pmm.free);
  }

  lemma {:induction false} RootFirst(mem: Mem, pmm: Pmm)
    requires MemoryFits(mem, pmm) && pmm.free != {}
    ensures forall f :: f in pmm.free ==> PrepPml4(mem, pmm).root <= f
  {
    var f0 :| f0 in pmm.free;
    var f := FirstFree(pmm.free, 0, pmm.total).value;
    assert f * FRAME_SIZE / FRAME_SIZE == f;
  }

  lemma {:induction false} StoredRoot(mem: Mem, pmm: Pmm, h: Handover)
    requires CanInit(mem, pmm, h) && PmmOk(pmm) && OffHeap(pmm, h) && ApiSpared(pmm, h)
    ensures BootVm(mem, pmm, h).root == PrepPml4(mem, pmm).root
  {
    hide CanInit, OffHeap, ApiSpared, HeapInvFrom, ApiOwned, Booting, Walk, InitTranslation, MappedVm, BootVm, PrepPml4, IsTable,
         BootPlaces;
    MappedCorrect(mem, pmm, h);
    MappedApi(mem, pmm, h);
    StructStored(mem, pmm, h);
  }

  lemma {:induction false} PoolAbove(vm: Vm, pool: set<nat>)
    requires Booting(vm, pool) && forall f :: f in pool ==> vm.root <= f
    ensures RootLowest(vm)
  {
    hide VmInv, NoHugeLeafAt, TableAt;
  }

  // ---- no block left -------------------------------------------------------------------------------

  // With the root above the first 2 MB these belong to nobody the allocator knows.
  lemma {:induction false} FirstBlockForeign(vm: Vm)
    requires RootLowest(vm) && vm.root >= 512 && Cap(vm) > 0
    ensures BlockOwned(vm, 0)
  {
    forall f | f in BlockFrames(0)
      ensures f !in vm.pmm.free && !IsTable(vm.mem, vm.root, f)
    {
      forall p
        ensures TableAt(vm.mem, vm.root, p) != Some(f)
      {
        assert At(vm, p) == Some(f) ==> vm.root <= f;
      }
    }
  }

  lemma {:induction false} BlocksFromFree(start: Vm, vm: Vm, blocks: seq<nat>)
    requires Grown(start, vm, blocks) && RootLowest(start) && start.root >= 512
    ensures 0 !in blocks
  {
    hide HeapInvFrom, HeapPlaces, GrewButApi, IsTable, Walk, OnLowest, BlockUnion;
    GrownGrew(start, vm, blocks);
    ButApiIs(start, vm, HeapPlaces(0, |blocks|), BlockUnion(blocks));
    if 0 in blocks {
      FirstOfBlock(blocks);
    }
  }

  lemma {:induction false} FirstOfBlock(blocks: seq<nat>)
    requires 0 in blocks
    ensures 0 in BlockUnion(blocks)
  {
    var i :| 0 <= i < |blocks| && blocks[i] == 0;
    assert 0 in BlockFrames(blocks[i]);
  }

  // At any point of any run after boot, a heap page for which no block is left goes to physical 0. If
  // the PML4 lies in the first 2 MB the whole address space is gone. Otherwise the heap has a page on
  // memory that was never handed out, zeroed, which the reset will give to the allocator.
  lemma {:induction false} NoBlockLeft(mem: Mem, pmm: Pmm, h: Handover, cycles: seq<seq<Action>>, actions: seq<Action>,
                                       n: nat, flags: Flags) returns (blocks: seq<nat>)
    requires CanInit(mem, pmm, h) && PmmOk(pmm) && OffHeap(pmm, h) && ApiSpared(pmm, h)
    requires Ready(BootVm(mem, pmm, h), n) && AllInHeap(cycles) && Peak(cycles) <= n
    requires InHeap(0, actions) && Ready(RunCycles(BootVm(mem, pmm, h), cycles), Total(actions))
    requires var vm := Working(BootVm(mem, pmm, h), cycles, actions);
      && FirstBlock(vm.pmm.free, 0, vm.pmm.bytes / 64).None? && Total(actions) < Cap(vm)
      && Fits(vm, PathPlaces(HeapAddr(Total(actions)), 0, 2))
    ensures |blocks| == Total(actions)
    ensures var vm := Working(BootVm(mem, pmm, h), cycles, actions);
      var c := AllocOne(vm, HeapAddr(|blocks|), flags);
      && HeapInv(vm, blocks)
      && if vm.root < 512 then Dead(c)
         else
           && HeapInv(c, blocks + [0]) && HugePageMapped(vm, c, HeapAddr(|blocks|), 0, flags) && Zeroed(c.mem, BlockFrames(0))
           && BlockFrames(0) <= ResetHeap(c, HeapAddr(|blocks| + 1)).pmm.free && BlockFrames(0) !! vm.pmm.free
  {
    hide *;
    var start := BootVm(mem, pmm, h);
    var m, vm := RunCycles(start, cycles), Working(start, cycles, actions);
    RunCyclesCorrect(start, cycles, n);
    blocks := GrownAt(m, actions);
    WorkingIs(start, cycles, actions);
    BootRootLowest(mem, pmm, h);
    ReadyIs(start, n);
    RootLowestKept(start, m, HeapPlaces(0, Peak(cycles)), {});
    GrownGrew(m, vm, blocks);
    RootLowestKept(m, vm, HeapPlaces(0, |blocks|), BlockUnion(blocks));
    GrownInv(m, vm, blocks);
    SameRoot(m, vm, HeapPlaces(0, |blocks|), BlockUnion(blocks));
    EnoughMemory(vm, blocks);
    if vm.root < 512 {
      AllocZeroesRoot(vm, blocks, flags);
    } else {
      FirstBlockForeign(vm);
      BlocksFromFree(m, vm, blocks);
      AllocWithoutBlock(vm, blocks, flags);
      ResetFreesBlockZero(vm, blocks, flags);
    }
  }

  lemma {:induction false} WorkingIs(start: Vm, cycles: seq<seq<Action>>, actions: seq<Action>)
    ensures Working(start, cycles, actions) == RunActions(RunCycles(start, cycles), HEAP_START, PollStores() + actions).0
  {
  }

  lemma {:induction false} SameRoot(a: Vm, b: Vm, s: set<Pos>, x: set<nat>)
    requires ApiIsData(a) && GrewButApi(a, b, s, x)
    ensures b.root == a.root
  {
    hide IsTable, GrewButApi;
    ButApiIs(a, b, s, x);
  }

  lemma {:induction false} EnoughMemory(vm: Vm, blocks: seq<nat>)
    requires HeapInv(vm, blocks) && |blocks| < Cap(vm)
    ensures Cap(vm) > 0 && 512 <= |vm.mem|
  {
  }
}
