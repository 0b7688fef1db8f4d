/** What holds of the whole machine in every workload cycle after boot. */
module MachineFacts {
  import opened Wrappers
  import opened Sets
  import opened PmmSpec
  import opened MemoryMap
  import opened Paging
  import opened PageTree
  import opened VmSpec
  import opened VmProofs
  import opened VmRange
  import opened VmInit
  import opened HeapSpec
  import opened HeapProofs
  import opened HeapRuns
  import opened KernelApi
  import opened FirstFit
  import opened HeapPlacement
  import opened Spared
  import opened HeapCycles
  import opened Boot
  import opened BootFrames

  // ---- table accesses go through a direct map that never changes -----------------------------------

  // Tables and free frames come from the pool.
  ghost predicate InPool(vm: Vm, pool: set<nat>) {
    vm.pmm.free <= pool && forall p :: At(vm, p).Some? ==> At(vm, p).value in pool
  }

  lemma {:induction false} PoolKept(a: Vm, b: Vm, s: set<Pos>, x: set<nat>, pool: set<nat>)
    requires ApiIsData(a) && InPool(a, pool) && GrewButApi(a, b, s, x)
    ensures InPool(b, pool)
  {
    hide Walk, IsTable, GrewButApi;
    ButApiIs(a, b, s, x);
    forall p | At(b, p).Some?
      ensures At(b, p).value in pool
    {
      if p in Missing(a, s) {
        assert At(b, p).value in Added(a, b, s);
      }
    }
  }

  // The direct map covers the pool and lies off the heap's part of the address space.
  ghost predicate PoolReachable(vm: Vm, hhdm: nat, pool: set<nat>) {
    && (forall f :: f in pool ==> Reachable(vm, hhdm, f))
    && (forall w :: WindowFrame(hhdm, w) in pool ==> HeapIndex(w) >= Cap(vm))
  }

  lemma {:induction false} BootReachable(mem: Mem, pmm: Pmm, h: Handover)
    requires CanInit(mem, pmm, h) && PmmOk(pmm) && OffHeap(pmm, h) && ApiSpared(pmm, h)
    requires pmm.free <= Covered(h.entries) && OffWindow(h.entries, h.hhdm, KERNEL_API_ADDRESS, 4096)
    ensures var vm := BootVm(mem, pmm, h);
      InPool(vm, pmm.free) && PoolReachable(vm, h.hhdm, pmm.free)
  {
    hide Walk, Window, WindowFrame, BootVm, OffPages, OffHeap, OffWindow, EntriesCost, TableBound, VmInv, HeapIndex,
         MemoryFits, Covered, ApiSpared;
    BootCorrect(mem, pmm, h);
    RangesOff(pmm, h);
    ManagedInWindow(h.entries);
    var vm := BootVm(mem, pmm, h);
    forall w | WindowFrame(h.hhdm, w) in pmm.free
      ensures Walk(vm.mem, vm.root, w) == Mapped(WindowFrame(h.hhdm, w), RW)
      ensures HeapIndex(w) >= Cap(vm)
    {
      if HeapIndex(w) < Cap(vm) {
        WindowOff(h.entries, h.hhdm, w, Cap(vm));
      }
      if PagesAfter(KERNEL_API_ADDRESS, w) == 0 {
        OffWindowFrames(h.entries, h.hhdm, KERNEL_API_ADDRESS, 4096, w);
      }
    }
  }

  lemma {:induction false} GrownReachable(start: Vm, vm: Vm, blocks: seq<nat>, hhdm: nat, pool: set<nat>)
    requires Grown(start, vm, blocks) && PoolReachable(start, hhdm, pool)
    ensures PoolReachable(vm, hhdm, pool)
  {
    hide Walk, WindowFrame, HeapPlaces, BlockUnion, HeapIndex, GrewButApi, IsTable, OnApiPage, OnLowest;
    ButApiIs(start, vm, HeapPlaces(0, |blocks|), BlockUnion(blocks));
    assert |blocks| <= Cap(vm) == Cap(start);
    forall f | f in pool
      ensures Reachable(vm, hhdm, f)
    {
      forall w | WindowFrame(hhdm, w) == f
        ensures Walk(vm.mem, vm.root, w) == Mapped(f, RW)
      {
        assert Reachable(start, hhdm, f);
      }
    }
  }

  lemma {:induction false} SameReachable(a: Vm, b: Vm, hhdm: nat, pool: set<nat>)
    requires SameWalks(a, b) && PoolReachable(a, hhdm, pool) && b.pmm.total == a.pmm.total
    ensures PoolReachable(b, hhdm, pool)
  {
    hide Walk, WindowFrame, HeapIndex;
    forall f | f in pool
      ensures Reachable(b, hhdm, f)
    {
      assert Reachable(a, hhdm, f);
      forall w | WindowFrame(hhdm, w) == f
        ensures Walk(b.mem, b.root, w) == Mapped(f, RW)
      {
        assert Walk(b.mem, b.root, w) == Walk(a.mem, a.root, w);
      }
    }
  }

  // At any point of any run of cycles after boot, every page table in use and every frame that
  // may become one is reached through the direct map, which is where the code reads and writes
  // tables.
  lemma {:induction false} TablesAlwaysReachable(mem: Mem, pmm: Pmm, h: Handover, cycles: seq<seq<Action>>,
                                                 actions: seq<Action>, n: nat)
    requires CanInit(mem, pmm, h) && PmmOk(pmm) && OffHeap(pmm, h) && ApiSpared(pmm, h)
    requires pmm.free <= Covered(h.entries) && OffWindow(h.entries, h.hhdm, KERNEL_API_ADDRESS, 4096)
    requires Ready(BootVm(mem, pmm, h), n) && AllInHeap(cycles) && Peak(cycles) <= n
    requires InHeap(0, actions) && Total(actions) <= n
    ensures var vm := Working(BootVm(mem, pmm, h), cycles, actions);
      InPool(vm, pmm.free) && PoolReachable(vm, h.hhdm, pmm.free)
  {
    hide *;
    var start := BootVm(mem, pmm, h);
    BootReachable(mem, pmm, h);
    var blocks := WorkingGrown(start, cycles, actions, n);
    var m := RunCycles(start, cycles);
    ReadyIs(start, n);
    ReadyIs(m, n);
    PoolKept(start, m, HeapPlaces(0, Peak(cycles)), {}, pmm.free);
    ButApiIs(start, m, HeapPlaces(0, Peak(cycles)), {});
    SameReachable(start, m, h.hhdm, pmm.free);
    var vm := Working(start, cycles, actions);
    GrownReachable(m, vm, blocks, h.hhdm, pmm.free);
    GrownGrew(m, vm, blocks);
    PoolKept(m, vm, HeapPlaces(0, |blocks|), BlockUnion(blocks), pmm.free);
  }

  // ---- heap pages and their frames ---------------------------------------------------------------------

  // Before the reset: different heap pages have different frames, and no such frame is free or
  // holds a page table.
  lemma {:induction false} HeapOneToOne(vm: Vm, blocks: seq<nat>, v: nat, w: nat)
    requires HeapInv(vm, blocks) && HeapIndex(v) < |blocks| && HeapIndex(w) < |blocks|
    ensures Walk(vm.mem, vm.root, v).Mapped? && Walk(vm.mem, vm.root, w).Mapped?
    ensures Walk(vm.mem, vm.root, v).frame == Walk(vm.mem, vm.root, w).frame <==> SamePage(v, w)
    ensures var f := Walk(vm.mem, vm.root, v).frame;
      f < vm.pmm.total && f !in vm.pmm.free && !IsTable(vm.mem, vm.root, f)
  {
    hide VmInv, Walk, IsTable, SamePage, Index, HeapIndex;
    var i, j := HeapIndex(v), HeapIndex(w);
    CapSmall(vm);
    SamePageSlots(v, w);
    HeapPageOf(i, v);
    HeapPageOf(i, w);
    SameHugeIs(i, v, w);
    assert BlockOwned(vm, blocks[i]);
    IndexBelow(v);
    IndexBelow(w);
    assert 512 * blocks[i] + Index(v, 0) in BlockFrames(blocks[i]);
  }

  lemma {:induction false} IndexBelow(v: nat)
    ensures Index(v, 0) < 512
  {
  }

  lemma {:induction false} SameHugeIs(k: nat, v: nat, w: nat)
    requires k < HUGE_COUNT && HeapIndex(v) == k
    ensures SameHugePage(v, w) <==> HeapIndex(w) == k
  {
    HeapPageOf(k, v);
    HeapPageOf(k, w);
  }

  // ---- the price of a heap of n pages --------------------------------------------------------------------

  // PDs and PDPTs for n heap pages: HEAP_START begins a PML4 slot.
  function HeapTables(n: nat): nat {
    (n + 511) / 512 + (n + 0x3_ffff) / 0x4_0000
  }

  lemma {:induction false} HeapOrdinals(k: nat)
    ensures Ordinal(HeapAddr(k), 2) == HEAP_START / 0x4000_0000 + k / 512
    ensures Ordinal(HeapAddr(k), 1) == HEAP_START / 0x80_0000_0000 + k / 0x4_0000
  {
    assert HEAP_START % 0x80_0000_0000 == 0;
  }

  function HeapSpan(n: nat): set<Pos> {
    Places(HEAP_START / 0x4000_0000, (n + 511) / 512, 2) + Places(HEAP_START / 0x80_0000_0000, (n + 0x3_ffff) / 0x4_0000, 1)
  }

  lemma {:induction false} HeapPlacesWithin(k: nat, m: nat, n: nat)
    requires k + m <= n
    ensures HeapPlaces(k, m) <= HeapSpan(n)
    decreases m
  {
    hide Places, PosOf, Ordinal, HeapAddr;
    if m > 0 {
      HeapPlacesWithin(k + 1, m - 1, n);
      HeapPathWithin(k, n);
    }
  }

  lemma {:induction false} HeapPathWithin(k: nat, n: nat)
    requires k < n
    ensures PathPlaces(HeapAddr(k), 0, 2) <= HeapSpan(n)
  {
    hide Places, PosOf, Ordinal, HeapAddr, PlaceOf;
    var v := HeapAddr(k);
    HeapOrdinals(k);
    PosIsPlace(v, 1);
    PosIsPlace(v, 2);
    PlacesMember(HEAP_START / 0x4000_0000, (n + 511) / 512, 2, Ordinal(v, 2));
    PlacesMember(HEAP_START / 0x80_0000_0000, (n + 0x3_ffff) / 0x4_0000, 1, Ordinal(v, 1));
    assert PathPlaces(v, 1, 2) == {PosOf(v, 2)} + PathPlaces(v, 2, 2);
    assert PathPlaces(v, 0, 2) == {PosOf(v, 1)} + PathPlaces(v, 1, 2);
  }

  lemma {:induction false} HeapPlacesSize(n: nat)
    ensures |HeapPlaces(0, n)| <= HeapTables(n)
  {
    hide Places, HeapPlaces;
    HeapPlacesWithin(0, n, n);
    PlacesSize(HEAP_START / 0x4000_0000, (n + 511) / 512, 2);
    PlacesSize(HEAP_START / 0x80_0000_0000, (n + 0x3_ffff) / 0x4_0000, 1);
    SubsetSize(HeapPlaces(0, n), HeapSpan(n));
  }

  // Enough wholly free blocks are room for n pages, whatever tables exist.
  lemma {:induction false} RoomFromBlocks(vm: Vm, n: nat)
    requires |Whole(vm)| >= n + HeapTables(n)
    ensures Room(vm, 0, n)
  {
    HeapPlacesSize(n);
    SubsetSize(Missing(vm, HeapPlaces(0, n)), HeapPlaces(0, n));
  }

  // With the API frame the allocator's, as many of them must lie below it.
  lemma {:induction false} ReadyFromBlocks(vm: Vm, n: nat)
    requires Idle(vm) && |Whole(vm)| >= n + HeapTables(n)
    requires API_FRAME in vm.pmm.free ==> |WholeBlocks(vm.pmm.free, 128)| >= n + HeapTables(n)
    ensures Ready(vm, n)
  {
    hide Room, Whole, HeapPlaces, HeapTables, AfterPages, TablesFor, HeapInvFrom, ApiOwned, WholeBlocks;
    RoomFromBlocks(vm, n);
    HeapPlacesSize(n);
    if API_FRAME in vm.pmm.free {
      SparesFromBlocks(vm, n);
    }
  }

  // No leak: any number of cycles of at most n pages costs HeapTables(n) frames at most.
  lemma {:induction false} NoLeak(start: Vm, cycles: seq<seq<Action>>, n: nat)
    requires Ready(start, n) && AllInHeap(cycles) && Peak(cycles) <= n
    ensures var end := RunCycles(start, cycles);
      && end.pmm.free <= start.pmm.free
      && |start.pmm.free| - |end.pmm.free| <= HeapTables(n)
  {
    hide HeapInvFrom, Ready, HeapPlaces, RunCycles, IsTree, Missing, Added, HeapTables, VmInv, GrewButApi, SameWalks;
    RunCyclesCorrect(start, cycles, n);
    var end := RunCycles(start, cycles);
    ReadyIs(start, n);
    ReadyIs(end, n);
    HeapIsTree(end);
    ButApiIs(start, end, HeapPlaces(0, Peak(cycles)), {});
    ButApiSize(start, end, HeapPlaces(0, Peak(cycles)), {});
    HeapPlacesSize(n);
    PlacesWithin(Peak(cycles), n);
    MissingWithin(start, Peak(cycles), n);
  }

  // Frames that were neither free nor tables at the start are never touched, the API frame apart.
  lemma {:induction false} OthersKept(start: Vm, cycles: seq<seq<Action>>, n: nat, f: nat)
    requires Ready(start, n) && AllInHeap(cycles) && Peak(cycles) <= n
    requires f < |start.mem| && f != API_FRAME && f !in start.pmm.free && !IsTable(start.mem, start.root, f)
    ensures var end := RunCycles(start, cycles); f < |end.mem| && end.mem[f] == start.mem[f]
  {
    hide Ready, HeapPlaces, RunCycles, GrewButApi, SameWalks, IsTable;
    RunCyclesCorrect(start, cycles, n);
    ReadyIs(start, n);
    ButApiContents(start, RunCycles(start, cycles), HeapPlaces(0, Peak(cycles)), {}, f);
  }

  lemma {:induction false} HeapIsTree(vm: Vm)
    requires HeapInv(vm, [])
    ensures IsTree(vm.mem, vm.root)
  {
  }

  lemma {:induction false} MissingWithin(vm: Vm, m: nat, n: nat)
    requires m <= n
    ensures |Missing(vm, HeapPlaces(0, m))| <= |HeapPlaces(0, n)|
  {
    PlacesWithin(m, n);
    SubsetSize(Missing(vm, HeapPlaces(0, m)), HeapPlaces(0, n));
  }
}
