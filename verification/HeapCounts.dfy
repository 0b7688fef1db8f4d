/**
 The free-frame counter through growth, cycles and runs: it exceeds the number of free frames
 by the frames of the heap's blocks, which the 2 MB operations never count.
 */
module HeapCounts {
  import opened Bytes
  import opened Wrappers
  import opened PmmSpec
  import opened Paging
  import opened VmSpec
  import opened VmProofs
  import opened HeapSpec
  import opened HeapProofs
  import opened HeapRuns
  import opened VirtualMemory
  import opened KernelApi
  import opened HeapPlacement
  import opened Spared
  import opened HeapCycles
  import opened MemoryMap
  import opened VmInit
  import opened Boot

  predicate CountLaw(pmm: Pmm, blocks: nat) {
    pmm.count == |pmm.free| + 512 * blocks
  }

  lemma {:induction false} ClaimCounts(pmm: Pmm, k: nat)
    requires CountLaw(pmm, k)
    ensures CountLaw(AllocNext(pmm).0, k)
  {
    var got := FirstFree(pmm.free, 0, pmm.total);
    if got.Some? {
      assert pmm.free == pmm.free - {got.value} + {got.value};
      assert |pmm.free - {got.value}| == |pmm.free| - 1;
    }
  }

  lemma {:induction false} DescendCounts(vm: Vm, t: nat, v: nat, level: nat, stop: nat, k: nat)
    requires stop <= level < 4 && CountLaw(vm.pmm, k)
    ensures CountLaw(Descend(vm, t, v, level, stop).0.pmm, k)
    decreases level
  {
    hide AllocNext, CountLaw, Index, Lookup, Store, Clear;
    if level != stop {
      ClaimCounts(vm.pmm, k);
      var (b, child) := NextTable(vm, t, Index(v, level));
      DescendCounts(b, child, v, level - 1, stop, k);
    }
  }

  lemma {:induction false} TakingCounts(pmm: Pmm, b: nat, k: nat)
    requires CountLaw(pmm, k) && WhollyFree(pmm.free, b)
    ensures CountLaw(pmm.(free := pmm.free - BlockFrames(b)), k + 1)
  {
    RunSize(512 * b, 512);
    assert |pmm.free - BlockFrames(b)| == |pmm.free| - |BlockFrames(b)|;
  }

  lemma {:induction false} AllocOneCounts(vm: Vm, next: nat, flags: Flags, k: nat)
    requires CountLaw(vm.pmm, k) && FirstBlock(vm.pmm.free, 0, vm.pmm.bytes / 64).Some?
    ensures CountLaw(AllocOne(vm, next, flags).pmm, k + 1)
  {
    hide CountLaw, Descend, Store, ZeroPages, WhollyFree, BlockFrames;
    var b := FirstBlock(vm.pmm.free, 0, vm.pmm.bytes / 64).value;
    var vm0 := Taking(vm, b);
    TakingCounts(vm.pmm, b, k);
    DescendCounts(vm0, vm0.root, next, 3, 1, k + 1);
    ZeroKeepsPmm(MapHuge(vm0, next, b * BLOCK_SIZE, flags), next, 512);
  }

  lemma {:induction false} GrowthCounts(vm: Vm, blocks: seq<nat>, n: nat, flags: Flags)
    requires HeapInv(vm, blocks) && Room(vm, |blocks|, n) && CountLaw(vm.pmm, |blocks|)
    ensures CountLaw(AllocFrom(vm, HeapAddr(|blocks|), n, flags).pmm, |blocks| + n)
    decreases n
  {
    hide *;
    if n > 0 {
      var k := |blocks|;
      RoomIsBlock(vm, blocks, n);
      BlockFound(vm);
      var blk := FirstBlock(vm.pmm.free, 0, vm.pmm.bytes / 64).value;
      RoomFits(vm, k, n, blk);
      AllocOneCorrect(vm, blocks, blk, flags);
      AllocOneCounts(vm, HeapAddr(k), flags, k);
      var b := AllocOne(vm, HeapAddr(k), flags);
      AfterOne(vm, b, blocks, blk, flags, n);
      GrowthCounts(b, blocks + [blk], n - 1, flags);
    }
    AllocStep(vm, |blocks|, n, flags);
  }

  lemma {:induction false} AllocStep(vm: Vm, k: nat, n: nat, flags: Flags)
    ensures n == 0 ==> AllocFrom(vm, HeapAddr(k), n, flags) == vm
    ensures n > 0 ==> AllocFrom(vm, HeapAddr(k), n, flags) == AllocFrom(AllocOne(vm, HeapAddr(k), flags), HeapAddr(k + 1), n - 1, flags)
  {
    hide AllocOne, HeapAddr;
    NextAddr(k);
  }

  lemma {:induction false} GrowCounts(start: Vm, vm: Vm, blocks: seq<nat>, n: nat, flags: Flags, rest: nat) returns (more: seq<nat>)
    requires Grown(start, vm, blocks) && Room(vm, |blocks|, n + rest) && Spares(start, 0, |blocks| + n + rest)
    requires CountLaw(vm.pmm, |blocks|)
    ensures |more| == |blocks| + n && AllocHuge(vm, HeapAddr(|blocks|), n, flags) == (AllocFrom(vm, HeapAddr(|blocks|), n, flags), HeapAddr(|more|))
    ensures var c := AllocFrom(vm, HeapAddr(|blocks|), n, flags);
      Grown(start, c, more) && Room(c, |more|, rest) && CountLaw(c.pmm, |more|)
  {
    hide *;
    RoomSplit(vm, |blocks|, n, rest);
    GrownInv(start, vm, blocks);
    GrowthCounts(vm, blocks, n, flags);
    more := GrowCorrect(start, vm, blocks, n, flags, rest);
    AllocHugeIs(vm, |blocks|, n, flags);
  }

  lemma {:induction false} AllocHugeIs(vm: Vm, k: nat, n: nat, flags: Flags)
    ensures AllocHuge(vm, HeapAddr(k), n, flags) == (AllocFrom(vm, HeapAddr(k), n, flags), HeapAddr(k + n))
  {
    hide AllocFrom;
    AlignedNext(k);
    assert HeapAddr(k) + n * BLOCK_SIZE == HeapAddr(k + n);
  }

  lemma {:induction false} ActionsCount(start: Vm, vm: Vm, blocks: seq<nat>, actions: seq<Action>)
    requires Grown(start, vm, blocks) && InHeap(|blocks|, actions) && Room(vm, |blocks|, Total(actions))
    requires Spares(start, 0, |blocks| + Total(actions)) && CountLaw(vm.pmm, |blocks|)
    ensures CountLaw(RunActions(vm, HeapAddr(|blocks|), actions).0.pmm, |blocks| + Total(actions))
    decreases |actions|
  {
    hide Grown, Room, StoreByte, AllocFrom, AllocHuge, HeapAddr, HeapIndex, OnApiPage, CountLaw, Spares;
    if actions != [] {
      var rest := actions[1..];
      match actions[0]
      case Grow(n, flags) =>
        var more := GrowCounts(start, vm, blocks, n, flags, Total(rest));
        ActionsCount(start, AllocFrom(vm, HeapAddr(|blocks|), n, flags), more, rest);
      case Write(v, b) =>
        GrownWritten(start, vm, blocks, v, b);
        WriteRoom(start, vm, blocks, v, b, Total(rest));
        WriteCounts(vm, v, b);
        ActionsCount(start, StoreByte(vm, v, b), blocks, rest);
    }
  }

  lemma {:induction false} WriteCounts(vm: Vm, v: nat, b: byte)
    ensures StoreByte(vm, v, b).pmm == vm.pmm
  {
  }

  lemma {:induction false} ResetCounts(vm: Vm, next: nat, addr: nat)
    ensures ResetFrom(vm, next, addr).pmm.count == vm.pmm.count
    decreases next - addr
  {
    if addr < next {
      ResetCounts(ResetOne(vm, addr), next, addr + BLOCK_SIZE);
    }
  }

  lemma {:induction false} UnionSize(blocks: seq<nat>)
    requires forall i, j :: 0 <= i < j < |blocks| ==> blocks[i] != blocks[j]
    ensures |BlockUnion(blocks)| == 512 * |blocks|
  {
    if blocks == [] {
      assert BlockUnion(blocks) == {};
    } else {
      hide BlockUnion;
      var front, b := blocks[..|blocks| - 1], blocks[|blocks| - 1];
      assert blocks == front + [b];
      UnionSize(front);
      UnionLast(front, b);
      RunSize(512 * b, 512);
      UnionApart(front, b);
    }
  }

  lemma {:induction false} UnionApart(blocks: seq<nat>, b: nat)
    requires forall i :: 0 <= i < |blocks| ==> blocks[i] != b
    ensures BlockUnion(blocks) !! BlockFrames(b)
  {
    forall f | f in BlockUnion(blocks)
      ensures f !in BlockFrames(b)
    {
      var i :| 0 <= i < |blocks| && f in BlockFrames(blocks[i]);
      BlockBounds(blocks[i]);
      BlockBounds(b);
    }
  }

  // Giving the heap's blocks back makes the counter exact again.
  lemma {:induction false} ResetExact(vm: Vm, blocks: seq<nat>)
    requires HeapInv(vm, blocks) && CountLaw(vm.pmm, |blocks|)
    ensures CountLaw(ResetHeap(vm, HeapAddr(|blocks|)).pmm, 0)
  {
    hide VmInv, Walk, TableAt, BlockOwned, BlockUnion, ResetFrom;
    ResetHeapCorrect(vm, blocks);
    ResetCounts(vm, HeapAddr(|blocks|), HEAP_START);
    UnionSize(blocks);
    forall f | f in BlockUnion(blocks)
      ensures f !in vm.pmm.free
    {
      UnionNoTable(vm, blocks, f);
    }
    assert |vm.pmm.free + BlockUnion(blocks)| == |vm.pmm.free| + |BlockUnion(blocks)|;
  }

  // In a cycle the counter exceeds the free frames by 512 for each heap page; after it the two
  // are equal.
  lemma {:induction false} CycleCounts(start: Vm, actions: seq<Action>)
    requires Ready(start, Total(actions)) && InHeap(0, actions) && CountLaw(start.pmm, 0)
    ensures CountLaw(RunActions(start, HEAP_START, PollStores() + actions).0.pmm, Total(actions))
    ensures CountLaw(Cycle(start, actions).pmm, 0)
  {
    hide *;
    ReadyIs(start, Total(actions));
    GrownStart(start);
    HeapStart();
    PollStoresFirst(actions);
    ActionsCount(start, start, [], PollStores() + actions);
    var blocks := GrownAt(start, actions);
    var m := RunActions(start, HEAP_START, PollStores() + actions).0;
    GrownInv(start, m, blocks);
    ResetExact(m, blocks);
    CycleEnds(start, m, actions, blocks);
  }

  // After any run of cycles free_frames is the number of free frames.
  lemma {:induction false} RunCyclesCount(start: Vm, cycles: seq<seq<Action>>, n: nat)
    requires Ready(start, n) && AllInHeap(cycles) && Peak(cycles) <= n && CountLaw(start.pmm, 0)
    ensures CountLaw(RunCycles(start, cycles).pmm, 0)
    decreases |cycles|
  {
    hide Ready, HeapPlaces, GrewButApi, Cycle, InHeap, SameWalks, CountLaw, PollStores;
    if cycles != [] {
      var m, rest := Cycle(start, cycles[0]), cycles[1..];
      ReadyFewer(start, Total(cycles[0]), n);
      CycleCorrect(start, cycles[0], n);
      CycleCounts(start, cycles[0]);
      RunCyclesCount(m, rest, n);
    }
  }

  // ---- the same through boot ---------------------------------------------------------------------

  lemma {:induction false} RangeCounts(vm: Vm, v: nat, phys: nat, size: nat, flags: Flags, offset: nat)
    requires CountLaw(vm.pmm, 0)
    ensures CountLaw(MapRange(vm, v, phys, size, flags, offset).pmm, 0)
    decreases size - offset
  {
    hide CountLaw, Descend, Store, Index;
    if offset < size {
      DescendCounts(vm, vm.root, v + offset, 3, 0, 0);
      RangeCounts(MapPage(vm, v + offset, phys + offset, flags), v, phys, size, flags, offset + FRAME_SIZE);
    }
  }

  lemma {:induction false} EntriesCount(vm: Vm, entries: seq<MemEntry>, hhdm: nat)
    requires CountLaw(vm.pmm, 0)
    ensures CountLaw(MapEntries(vm, entries, hhdm).pmm, 0)
  {
    hide CountLaw, MapRange;
    if entries != [] {
      var front, e := entries[..|entries| - 1], entries[|entries| - 1];
      EntriesCount(vm, front, hhdm);
      if DirectMapped(e) {
        RangeCounts(MapEntries(vm, front, hhdm), e.base + hhdm, e.base, e.length, RW, 0);
      }
    }
  }

  // Boot starts from an exact counter and leaves it exact.
  lemma {:induction false} BootCounts(mem: Mem, pmm: Pmm, h: Handover)
    requires pmm.count == |pmm.free|
    ensures CountLaw(BootVm(mem, pmm, h).pmm, 0)
  {
    hide MapRange, MapEntries, AllocNext;
    ClaimCounts(pmm, 0);
    var vm0 := PrepPml4(mem, pmm);
    RangeCounts(vm0, 0, 0, 0x400000, RW, 0);
    var vm1 := MapRange(vm0, 0, 0, 0x400000, RW, 0);
    RangeCounts(vm1, h.kernelVirt, h.kernelPhys, KernelSize(h.entries), RW, 0);
    var vm2 := MapRange(vm1, h.kernelVirt, h.kernelPhys, KernelSize(h.entries), RW, 0);
    EntriesCount(vm2, h.entries, h.hhdm);
    RangeCounts(InitVm(mem, pmm, h), KERNEL_API_ADDRESS, KERNEL_API_ADDRESS, 4096, RW, 0);
    StoresCount(MappedVm(mem, pmm, h), HEAP_START, KERNEL_API_ADDRESS, h.api);
  }

  lemma {:induction false} StoresCount(vm: Vm, next: nat, v: nat, bytes: seq<byte>)
    ensures RunActions(vm, next, Stores(v, bytes)).0.pmm == vm.pmm
    decreases |bytes|
  {
    hide StoreByte;
    if bytes != [] {
      assert Stores(v, bytes)[0] == Write(v, bytes[0]) && Stores(v, bytes)[1..] == Stores(v + 1, bytes[1..]);
      WriteCounts(vm, v, bytes[0]);
      StoresCount(StoreByte(vm, v, bytes[0]), next, v + 1, bytes[1..]);
    }
  }
}
