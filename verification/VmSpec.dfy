/**
 The virtual memory manager as functions on values: physical memory, the PML4 frame and the
 allocator state in, the same out. The class in Vmm.dfy is proved equal to these.

 Virtual addresses are unbounded here; a walk looks at bits 47..12 only, so arithmetic that
 wraps at 64 bits selects the same slots.
 */
module VmSpec {
  import opened Wrappers
  import opened PmmSpec
  import opened Paging
  import opened MemoryMap

  datatype Vm = Vm(mem: Mem, root: nat, pmm: Pmm)

  const HEAP_START: nat := 0xffff_9000_0000_0000

  // One level of the descent: the table slot i of t leads to, made first if it is absent.
  // The address pmm_alloc returns is used unchecked.
  function NextTable(vm: Vm, t: nat, i: nat): (Vm, nat) {
    if Present(Lookup(vm.mem, t, i)) then (vm, Lookup(vm.mem, t, i).frame)
    else
      var (pmm', addr) := AllocNext(vm.pmm);
      var mem' := Store(Clear(vm.mem, addr / FRAME_SIZE), t, i, TableEntry(addr / FRAME_SIZE));
      (Vm(mem', vm.root, pmm'), Lookup(mem', t, i).frame)
  }

  // The loop over levels, from the table t of one level down to a table of level stop.
  function Descend(vm: Vm, t: nat, v: nat, level: nat, stop: nat): (Vm, nat)
    requires stop <= level < 4
    decreases level
  {
    if level == stop then (vm, t)
    else
      var (vm', child) := NextTable(vm, t, Index(v, level));
      Descend(vm', child, v, level - 1, stop)
  }

  // vmm_map_virt_to_phys
  function MapPage(vm: Vm, v: nat, phys: nat, flags: Flags): Vm {
    var (vm', pt) := Descend(vm, vm.root, v, 3, 0);
    vm'.(mem := Store(vm'.mem, pt, Index(v, 0), LeafEntry(phys, flags)))
  }

  // vmm_map_range from an offset on.
  function MapRange(vm: Vm, v: nat, phys: nat, size: nat, flags: Flags, offset: nat): Vm
    decreases size - offset
  {
    if offset >= size then vm
    else MapRange(MapPage(vm, v + offset, phys + offset, flags), v, phys, size, flags, offset + FRAME_SIZE)
  }

  // vmm_map_virt_to_phys_huge_page
  function MapHuge(vm: Vm, v: nat, phys: nat, flags: Flags): Vm {
    var (vm', pd) := Descend(vm, vm.root, v, 3, 1);
    vm'.(mem := Store(vm'.mem, pd, Index(v, 1), HugeEntry(phys, flags)))
  }

  // vmm_prep_pml4: the root is a cleared frame of the allocator.
  function PrepPml4(mem: Mem, pmm: Pmm): Vm {
    var (pmm', addr) := AllocNext(pmm);
    Vm(Clear(mem, addr / FRAME_SIZE), addr / FRAME_SIZE, pmm')
  }

  // The length of the last kernel entry, 0 without one.
  function KernelSize(entries: seq<MemEntry>): nat {
    if entries == [] then 0
    else if entries[|entries| - 1].kind == KernelAndModules then entries[|entries| - 1].length
    else KernelSize(entries[..|entries| - 1])
  }

  // VMM_PRESENT | VMM_WRITEABLE
  const RW: Flags := Flags(3, 0)

  // Entries the higher-half direct map covers.
  predicate DirectMapped(e: MemEntry) {
    e.kind == Usable || e.kind == BootloaderReclaimable || e.kind == Framebuffer
  }

  function MapEntry(vm: Vm, e: MemEntry, hhdm: nat): Vm {
    if DirectMapped(e) then MapRange(vm, e.base + hhdm, e.base, e.length, RW, 0) else vm
  }

  function MapEntries(vm: Vm, entries: seq<MemEntry>, hhdm: nat): Vm {
    if entries == [] then vm
    else MapEntry(MapEntries(vm, entries[..|entries| - 1], hhdm), entries[|entries| - 1], hhdm)
  }

  // vmm_init
  function Init(mem: Mem, pmm: Pmm, kernelVirt: nat, kernelPhys: nat, entries: seq<MemEntry>, hhdm: nat): Vm {
    var vm0 := PrepPml4(mem, pmm);
    var vm1 := MapRange(vm0, 0, 0, 0x400000, RW, 0);
    var vm2 := MapRange(vm1, kernelVirt, kernelPhys, KernelSize(entries), RW, 0);
    MapEntries(vm2, entries, hhdm)
  }
}
