/** The workload heap as functions on values: 2 MB pages from HEAP_START up, and the reset. */
module HeapSpec {
  import opened Wrappers
  import opened PmmSpec
  import opened Paging
  import opened VmSpec

  // The k-th heap page.
  function HeapAddr(k: nat): nat {
    HEAP_START + k * BLOCK_SIZE
  }

  // (next + 0x1fffff) & ~0x1fffff
  function AlignUp(next: nat): nat {
    (next + 0x1f_ffff) / BLOCK_SIZE * BLOCK_SIZE
  }

  // memset of n pages from v to 0, through the tables. An unmapped page would fault: that is
  // not modelled, the page is skipped.
  function ZeroPages(vm: Vm, v: nat, n: nat): Vm {
    if n == 0 then vm
    else
      var m := ZeroPages(vm, v, n - 1);
      match Walk(m.mem, m.root, v + (n - 1) * FRAME_SIZE)
      case Unmapped => m
      case Mapped(frame, _) => m.(mem := Clear(m.mem, frame))
  }

  // One turn of the loop of vmm_alloc_huge_page.
  function AllocOne(vm: Vm, next: nat, flags: Flags): Vm {
    var (pmm', phys) := Alloc2mbNext(vm.pmm);
    ZeroPages(MapHuge(vm.(pmm := pmm'), next, phys, flags), next, 512)
  }

  function AllocFrom(vm: Vm, next: nat, n: nat, flags: Flags): Vm
    decreases n
  {
    if n == 0 then vm else AllocFrom(AllocOne(vm, next, flags), next + BLOCK_SIZE, n - 1, flags)
  }

  // vmm_alloc_huge_page: the new state and next_virt_addr. It returns AlignUp(next).
  function AllocHuge(vm: Vm, next: nat, n: nat, flags: Flags): (Vm, nat) {
    (AllocFrom(vm, AlignUp(next), n, flags), AlignUp(next) + n * BLOCK_SIZE)
  }

  // One turn of the loop of vmm_reset_heap.
  function ResetOne(vm: Vm, addr: nat): Vm {
    var pdpt := Lookup(vm.mem, vm.root, Index(addr, 3)).frame;
    var pd := Lookup(vm.mem, pdpt, Index(addr, 2)).frame;
    var phys := Lookup(vm.mem, pd, Index(addr, 1)).frame * FRAME_SIZE;
    vm.(pmm := Free2mbNext(vm.pmm, phys), mem := Store(vm.mem, pd, Index(addr, 1), ZERO))
  }

  function ResetFrom(vm: Vm, next: nat, addr: nat): Vm
    decreases next - addr
  {
    if addr >= next then vm else ResetFrom(ResetOne(vm, addr), next, addr + BLOCK_SIZE)
  }

  // vmm_reset_heap; next_virt_addr becomes HEAP_START again.
  function ResetHeap(vm: Vm, next: nat): Vm {
    ResetFrom(vm, next, HEAP_START)
  }
}
