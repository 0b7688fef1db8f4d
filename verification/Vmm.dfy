/**
 The virtual memory manager at work on physical memory. Each method leaves the state its
 function in VmSpec or HeapSpec gives; what those states are worth is proved there.
 */
module Vmm {
  import opened Wrappers
  import opened PmmSpec
  import opened MemoryMap
  import opened Pmm
  import opened Paging
  import opened VmSpec
  import opened HeapSpec

  class Machine {
    const pmm: FrameAllocator
    const mem: array<Table>       // physical memory, reached through the direct map
    var pml4: nat                 // frame of vmm.pml4_phys
    var nextVirtAddr: nat

    ghost function State(): Vm
      reads this`pml4, mem, pmm, pmm.bitmap
    {
      Vm(mem[..], pml4, pmm.State())
    }

    ghost predicate Valid()
      reads pmm
    {
      pmm.Valid() && pmm.bitmap as object != mem as object
    }

    method ReadEntry(frame: nat, slot: nat) returns (e: Entry)
      ensures e == Lookup(mem[..], frame, slot)
    {
      if frame < mem.Length && slot < 512 {
        e := mem[frame][slot];
      } else {
        e := ZERO;
      }
    }

    method WriteEntry(frame: nat, slot: nat, e: Entry)
      modifies mem
      ensures mem[..] == Store(old(mem[..]), frame, slot, e)
    {
      if frame < mem.Length && slot < 512 {
        mem[frame] := mem[frame][slot := e];
      }
    }

    // memset of a whole frame to 0.
    method ClearFrame(frame: nat)
      modifies mem
      ensures mem[..] == Clear(old(mem[..]), frame)
    {
      if frame < mem.Length {
        mem[frame] := ZeroTable();
      }
    }

    // The body of the level loops: make the next table if the slot is absent, then follow it.
    method Follow(table: nat, slot: nat) returns (child: nat)
      requires Valid()
      modifies mem, pmm`freeFrames, pmm.bitmap
      ensures Valid()
      ensures (State(), child) == NextTable(old(State()), table, slot)
    {
      var e := ReadEntry(table, slot);
      if !Present(e) {
        var newTable := pmm.Alloc();
        ClearFrame(newTable / FRAME_SIZE);
        WriteEntry(table, slot, TableEntry(newTable / FRAME_SIZE));
      }
      e := ReadEntry(table, slot);
      child := e.frame;
    }

    // The level loops of both mapping functions, down to a table of level stop.
    method FindTable(virt: nat, stop: nat) returns (table: nat)
      requires Valid() && stop < 4
      modifies mem, pmm`freeFrames, pmm.bitmap
      ensures Valid()
      ensures (State(), table) == Descend(old(State()), pml4, virt, 3, stop)
    {
      table := pml4;
      var level := 3;
      while level > stop
        invariant stop <= level < 4 && Valid()
        invariant Descend(State(), table, virt, level, stop) == Descend(old(State()), pml4, virt, 3, stop)
      {
        table := Follow(table, Index(virt, level));
        level := level - 1;
      }
    }

    method MapVirtToPhys(virt: nat, phys: nat, flags: Flags)
      requires Valid()
      modifies mem, pmm`freeFrames, pmm.bitmap
      ensures Valid() && State() == MapPage(old(State()), virt, phys, flags)
    {
      var table := FindTable(virt, 0);
      WriteEntry(table, Index(virt, 0), LeafEntry(phys, flags));
    }

    method MapVirtToPhysHugePage(virt: nat, phys: nat, flags: Flags)
      requires Valid()
      modifies mem, pmm`freeFrames, pmm.bitmap
      ensures Valid() && State() == MapHuge(old(State()), virt, phys, flags)
    {
      var table := FindTable(virt, 1);
      WriteEntry(table, Index(virt, 1), HugeEntry(phys, flags));
    }

    method MapRange(virtStart: nat, physStart: nat, size: nat, flags: Flags)
      requires Valid()
      modifies mem, pmm`freeFrames, pmm.bitmap
      ensures Valid() && State() == VmSpec.MapRange(old(State()), virtStart, physStart, size, flags, 0)
    {
      hide State, MapPage;
      var offset := 0;
      while offset < size
        invariant Valid()
        invariant VmSpec.MapRange(State(), virtStart, physStart, size, flags, offset)
               == VmSpec.MapRange(old(State()), virtStart, physStart, size, flags, 0)
      {
        MapVirtToPhys(virtStart + offset, physStart + offset, flags);
        offset := offset + FRAME_SIZE;
      }
    }

    // vmm_init, on top of an initialised allocator.
    constructor (pmm: FrameAllocator, mem: array<Table>, kernelVirt: nat, kernelPhys: nat, entries: seq<MemEntry>, hhdm: nat)
      requires pmm.Valid() && pmm.bitmap as object != mem as object
      modifies mem, pmm`freeFrames, pmm.bitmap
      ensures Valid() && this.pmm == pmm && this.mem == mem && nextVirtAddr == HEAP_START
      ensures State() == Init(old(mem[..]), old(pmm.State()), kernelVirt, kernelPhys, entries, hhdm)
    {
      hide VmSpec.MapRange, MapEntries, PrepPml4, KernelSize, FrameAllocator.State;
      this.pmm, this.mem := pmm, mem;
      nextVirtAddr := HEAP_START;
      pml4 := 0;
      new;
      PrepareRoot();
      MapRange(0, 0, 0x400000, RW);
      var kernelSize := FindKernelSize(entries);
      MapRange(kernelVirt, kernelPhys, kernelSize, RW);
      MapDirect(entries, hhdm);
    }

    // vmm_prep_pml4
    method PrepareRoot()
      requires Valid()
      modifies this`pml4, mem, pmm`freeFrames, pmm.bitmap
      ensures Valid() && State() == PrepPml4(old(mem[..]), old(pmm.State()))
    {
      var addr := pmm.Alloc();
      pml4 := addr / FRAME_SIZE;
      ClearFrame(pml4);
    }

    static method FindKernelSize(entries: seq<MemEntry>) returns (size: nat)
      ensures size == KernelSize(entries)
    {
      size := 0;
      for i := 0 to |entries|
        invariant size == KernelSize(entries[..i])
      {
        assert entries[..i + 1][..i] == entries[..i];
        if entries[i].kind == KernelAndModules {
          size := entries[i].length;
        }
      }
      assert entries[..|entries|] == entries;
    }

    // The loop of vmm_init that builds the direct map.
    method MapDirect(entries: seq<MemEntry>, hhdm: nat)
      requires Valid()
      modifies mem, pmm`freeFrames, pmm.bitmap
      ensures Valid() && State() == MapEntries(old(State()), entries, hhdm)
    {
      hide State, VmSpec.MapRange;
      for i := 0 to |entries|
        invariant Valid() && State() == MapEntries(old(State()), entries[..i], hhdm)
      {
        assert entries[..i + 1][..i] == entries[..i];
        var current := entries[i];
        if current.kind == Usable || current.kind == BootloaderReclaimable || current.kind == Framebuffer {
          MapRange(current.base + hhdm, current.base, current.length, RW);
        }
      }
      assert entries[..|entries|] == entries;
    }

    // memset of n pages from virt to 0, through the tables.
    method ZeroVirtual(virt: nat, n: nat)
      requires Valid()
      modifies mem
      ensures Valid() && State() == ZeroPages(old(State()), virt, n)
    {
      hide TableAt, Clear, Index, PosOf;
      for k := 0 to n
        invariant State() == ZeroPages(old(State()), virt, k)
      {
        var at := Walk(mem[..], pml4, virt + k * FRAME_SIZE);
        if at.Mapped? {
          ClearFrame(at.frame);
        }
      }
    }

    method AllocHugePage(numPages: nat, flags: Flags) returns (start: nat)
      requires Valid()
      modifies this`nextVirtAddr, mem, pmm`freeFrames, pmm.bitmap
      ensures Valid() && start == AlignUp(old(nextVirtAddr))
      ensures (State(), nextVirtAddr) == AllocHuge(old(State()), old(nextVirtAddr), numPages, flags)
      ensures start % 0x20_0000 == 0 && old(nextVirtAddr) <= start < old(nextVirtAddr) + 0x20_0000
      ensures nextVirtAddr == start + 0x20_0000 * numPages
    {
      hide State, AllocOne;
      nextVirtAddr := (nextVirtAddr + 0x1f_ffff) / BLOCK_SIZE * BLOCK_SIZE;
      start := nextVirtAddr;
      for i := 0 to numPages
        invariant Valid() && nextVirtAddr == start + i * BLOCK_SIZE
        invariant AllocFrom(State(), nextVirtAddr, numPages - i, flags) == AllocFrom(old(State()), start, numPages, flags)
      {
        BackPage(flags);
        nextVirtAddr := nextVirtAddr + BLOCK_SIZE;
      }
    }

    // The body of that loop: a zeroed 2 MB page at nextVirtAddr.
    method BackPage(flags: Flags)
      requires Valid()
      modifies mem, pmm`freeFrames, pmm.bitmap
      ensures Valid() && State() == AllocOne(old(State()), nextVirtAddr, flags)
    {
      hide MapHuge, ZeroPages;
      var phys := pmm.Alloc2mb();
      MapVirtToPhysHugePage(nextVirtAddr, phys, flags);
      ZeroVirtual(nextVirtAddr, 512);
    }

    method ResetHeap()
      requires Valid()
      modifies this`nextVirtAddr, mem, pmm.bitmap
      ensures Valid() && nextVirtAddr == HEAP_START
      ensures State() == HeapSpec.ResetHeap(old(State()), old(nextVirtAddr))
    {
      hide Free2mbNext, Index, Store;
      var addr := HEAP_START;
      while addr < nextVirtAddr
        invariant Valid() && nextVirtAddr == old(nextVirtAddr)
        invariant ResetFrom(State(), nextVirtAddr, addr) == HeapSpec.ResetHeap(old(State()), old(nextVirtAddr))
      {
        var e := ReadEntry(pml4, Index(addr, 3));
        var pdpt := e.frame;
        e := ReadEntry(pdpt, Index(addr, 2));
        var pd := e.frame;
        e := ReadEntry(pd, Index(addr, 1));
        pmm.Free2mb(e.frame * FRAME_SIZE);
        WriteEntry(pd, Index(addr, 1), ZERO);
        addr := addr + BLOCK_SIZE;
      }
      nextVirtAddr := HEAP_START;
    }
  }
}
