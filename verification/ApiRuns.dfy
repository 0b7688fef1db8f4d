/** Exactly which runs of workload cycles leave the stores to the API page harmless. */
module ApiRuns {
  import opened Bytes
  import opened Wrappers
  import opened Sets
  import opened PmmSpec
  import opened MemoryMap
  import opened Paging
  import opened PageTree
  import opened VmSpec
  import opened VmProofs
  import opened VmRange
  import opened VmInit
  import opened HeapSpec
  import opened HeapProofs
  import opened HeapRuns
  import opened Words
  import opened VirtualMemory
  import opened KernelApi
  import opened FirstFit
  import opened HeapPlacement
  import opened Spared
  import opened HeapCycles
  import opened Boot
  import opened BootFrames
  import opened MachineFacts
  import opened ApiExact

  // What the first pages of the heap hold is the same.
  ghost predicate KeepsHeap(a: Vm, b: Vm, pages: nat) {
    forall w: nat :: HeapIndex(w) < pages ==> LoadByte(b, w) == LoadByte(a, w)
  }

  // No store to the API struct changes a table, a translation or a byte of the heap.
  ghost predicate Harmless(vm: Vm, pages: nat) {
    forall v: nat, b: byte :: InStruct(v) ==>
      KeepsAddressSpace(vm, StoreByte(vm, v, b)) && KeepsHeap(vm, StoreByte(vm, v, b), pages)
  }

  // ---- where the frame is spared ---------------------------------------------------------------------

  lemma {:induction false} OffBlocksHarmless(vm: Vm, blocks: seq<nat>)
    requires HeapInv(vm, blocks) && ApiOwned(vm) && API_FRAME !in BlockUnion(blocks) && API_FRAME < |vm.mem|
    ensures Harmless(vm, |blocks|)
  {
    hide VmInv, Walk, IsTable, BlockUnion, StoreByte, LoadByte, OnApiPage, HeapIndex, InStruct;
    forall v: nat, b: byte | InStruct(v)
      ensures KeepsAddressSpace(vm, StoreByte(vm, v, b)) && KeepsHeap(vm, StoreByte(vm, v, b), |blocks|)
    {
      OwnedMapped(vm);
      StructAddress(vm, v);
      StoreEffect(vm, v, b, API_FRAME);
      forall w: nat | HeapIndex(w) < |blocks|
        ensures LoadByte(StoreByte(vm, v, b), w) == LoadByte(vm, w)
      {
        HeapFrame(vm, blocks, w);
        StoreThenLoad(vm, v, b, w);
      }
    }
  }

  lemma {:induction false} OwnedMapped(vm: Vm)
    requires ApiOwned(vm) && API_FRAME < |vm.mem|
    ensures ApiMapped(vm)
  {
  }

  lemma {:induction false} HeapFrame(vm: Vm, blocks: seq<nat>, w: nat)
    requires HeapInv(vm, blocks) && HeapIndex(w) < |blocks|
    ensures Walk(vm.mem, vm.root, w).Mapped? && Walk(vm.mem, vm.root, w).frame in BlockUnion(blocks)
  {
    hide VmInv, Walk, HeapIndex;
    SlotInBlock(blocks[HeapIndex(w)], w);
  }

  lemma {:induction false} GrownOff(start: Vm, vm: Vm, blocks: seq<nat>)
    requires Grown(start, vm, blocks)
    ensures API_FRAME !in BlockUnion(blocks)
  {
    hide HeapInvFrom, Walk, IsTable, HeapPlaces, BlockUnion, HeapIndex, GrewButApi, OnApiPage, OnLowest;
    GrownGrew(start, vm, blocks);
    ButApiIs(start, vm, HeapPlaces(0, |blocks|), BlockUnion(blocks));
  }

  lemma {:induction false} SameMemory(start: Vm, vm: Vm, s: set<Pos>, x: set<nat>)
    requires GrewButApi(start, vm, s, x) && ApiIsData(start)
    ensures |vm.mem| == |start.mem|
  {
    hide GrewButApi, IsTable;
    ButApiIs(start, vm, s, x);
  }

  // ---- where it is not ---------------------------------------------------------------------------------

  // The k-th heap page lies on the API frame: a store to the API page changes what the heap holds.
  lemma {:induction false} HeapOnApiFrame(vm: Vm, pages: nat, w: nat)
    requires ApiMapped(vm) && !IsTable(vm.mem, vm.root, API_FRAME) && HeapIndex(w) < pages && w % 4096 == 0
    requires Walk(vm.mem, vm.root, w).Mapped? && Walk(vm.mem, vm.root, w).frame == API_FRAME
    ensures !Harmless(vm, pages)
  {
    hide Walk, IsTable, StoreByte, OnApiPage, HeapIndex, ApiMapped;
    var b: byte := if LoadByte(vm, w) == Some(0) then 1 else 0;
    StructAddress(vm, KERNEL_API_ADDRESS);
    MappedLength(vm);
    StoreThenLoad(vm, KERNEL_API_ADDRESS, b, w);
    var c := StoreByte(vm, KERNEL_API_ADDRESS, b);
    assert LoadByte(c, w) != LoadByte(vm, w);
    assert !KeepsHeap(vm, c, pages);
    assert InStruct(KERNEL_API_ADDRESS);
  }

  lemma {:induction false} MappedLength(vm: Vm)
    requires ApiMapped(vm)
    ensures API_FRAME < |vm.mem|
  {
  }

  // An address in the heap for a frame of its blocks.
  lemma {:induction false} BlockAddress(vm: Vm, blocks: seq<nat>, f: nat) returns (w: nat)
    requires HeapInv(vm, blocks) && f in BlockUnion(blocks)
    ensures HeapIndex(w) < |blocks| && w % 4096 == 0
    ensures Walk(vm.mem, vm.root, w).Mapped? && Walk(vm.mem, vm.root, w).frame == f
  {
    hide VmInv, Walk, HeapIndex, HeapAddr, BlockFrames, SameHugePage, Index, PageIn;
    var k :| 0 <= k < |blocks| && f in BlockFrames(blocks[k]);
    BlockBounds(blocks[k]);
    CapSmall(vm);
    var i := f - 512 * blocks[k];
    w := PageIn(HeapAddr(k), i);
    PageInHuge(k, i);
    HeapPageOf(k, w);
    PageAligned(k, i);
  }

  lemma {:induction false} PageAligned(k: nat, i: nat)
    ensures PageIn(HeapAddr(k), i) % 4096 == 0
  {
    assert PageIn(HeapAddr(k), i) == 4096 * (HEAP_START / 4096 + 512 * k + i);
  }

  // Growth that takes the API frame, for a table or for a page, makes the stores harm.
  lemma {:induction false} GrowthHarms(a: Vm, c: Vm, blocks: seq<nat>, flags: Flags)
    requires Idle(a) && HeapInv(c, blocks) && PagesAdded(a, c, [], blocks, flags)
    requires API_FRAME in a.pmm.free && API_FRAME !in c.pmm.free && API_FRAME < |a.mem|
    ensures !Harmless(c, |blocks|)
  {
    hide HeapInvFrom, Walk, IsTable, BlockUnion, HeapIndex, HeapPlaces, OnApiPage, StoreByte, LoadByte, InStruct, Zeroed, KeepsHeap,
         ApiMapped;
    assert blocks[0..] == blocks;
    var s := HeapPlaces(0, |blocks|);
    assert Grew(a, c, s, BlockUnion(blocks));
    ApiStaysMapped(a, c, blocks, flags);
    if IsTable(c.mem, c.root, API_FRAME) {
      ApiStoreExact(c);
    } else {
      TakenIs(a, c, s, BlockUnion(blocks), API_FRAME);
      var w := BlockAddress(c, blocks, API_FRAME);
      HeapOnApiFrame(c, |blocks|, w);
    }
  }

  lemma {:induction false} TakenIs(a: Vm, c: Vm, s: set<Pos>, x: set<nat>, f: nat)
    requires Grew(a, c, s, x) && f in a.pmm.free && f !in c.pmm.free
    ensures f in x || IsTable(c.mem, c.root, f)
  {
    if f in Added(a, c, s) {
      var p :| p in Missing(a, s) && At(c, p).Some? && At(c, p).value == f;
      assert TableAt(c.mem, c.root, p) == Some(f);
    }
  }

  lemma {:induction false} ApiStaysMapped(a: Vm, c: Vm, blocks: seq<nat>, flags: Flags)
    requires Idle(a) && HeapInv(c, blocks) && PagesAdded(a, c, [], blocks, flags) && API_FRAME < |a.mem|
    ensures ApiMapped(c)
  {
    hide VmInv, Walk, IsTable, BlockUnion, HeapIndex, HeapPlaces, OnApiPage, Zeroed, HeapWalks;
    CapSmall(c);
    forall w | OnApiPage(w)
      ensures Walk(c.mem, c.root, w) == Mapped(API_FRAME, RW)
    {
      ApiOffHeap(w);
    }
  }

  // ---- runs --------------------------------------------------------------------------------------------

  // Cycles of at most n pages, and the beginning of another.
  predicate Legal(cycles: seq<seq<Action>>, actions: seq<Action>, n: nat) {
    AllInHeap(cycles) && Peak(cycles) <= n && InHeap(0, actions) && Total(actions) <= n
  }

  lemma {:induction false} LegalHarmless(start: Vm, cycles: seq<seq<Action>>, actions: seq<Action>, n: nat)
    requires Ready(start, n) && Legal(cycles, actions, n) && API_FRAME < |start.mem|
    ensures Harmless(Working(start, cycles, actions), Total(actions))
  {
    hide *;
    LegalIs(cycles, actions, n);
    var blocks := WorkingGrown(start, cycles, actions, n);
    var m, vm := RunCycles(start, cycles), Working(start, cycles, actions);
    ReadyIs(start, n);
    SameMemory(start, m, HeapPlaces(0, Peak(cycles)), {});
    GrownGrew(m, vm, blocks);
    SameMemory(m, vm, HeapPlaces(0, |blocks|), BlockUnion(blocks));
    GrownApi(m, vm, blocks);
    GrownInv(m, vm, blocks);
    GrownOff(m, vm, blocks);
    OffBlocksHarmless(vm, blocks);
  }

  lemma {:induction false} LegalIs(cycles: seq<seq<Action>>, actions: seq<Action>, n: nat)
    ensures Legal(cycles, actions, n) <==> AllInHeap(cycles) && Peak(cycles) <= n && InHeap(0, actions) && Total(actions) <= n
  {
  }

  // The first cycle, which takes n pages at once.
  lemma {:induction false} FirstGrowth(start: Vm, n: nat)
    requires Idle(start) && Room(start, 0, n)
    ensures var c := Working(start, [], [Grow(n, RW)]);
      var ms, g := TablesFor(start, {}, 0, n), GeometryOf(start.pmm);
      exists a, blocks :: && Idle(a) && HeapInv(c, blocks) && |blocks| == n && PagesAdded(a, c, [], blocks, RW)
        && a.pmm == start.pmm && |a.mem| == |start.mem| && c.pmm.free == AfterPages(start.pmm.free, g, ms)
  {
    hide *;
    var a := RunActions(start, HEAP_START, PollStores()).0;
    PollStored(start);
    IdleHeap(a);
    SameTablesFor(start, a, n);
    AllocFromCorrect(a, [], n, RW);
    var ms, g := TablesFor(a, {}, 0, n), GeometryOf(a.pmm);
    FirstIs(start, n);
    HeapStart();
    assert [] + Blocks(a.pmm.free, g, ms) == Blocks(a.pmm.free, g, ms);
  }

  lemma {:induction false} IdleHeap(vm: Vm)
    ensures Idle(vm) ==> HeapInv(vm, []) && ApiOwned(vm)
  {
  }

  lemma {:induction false} PollStored(start: Vm)
    requires Idle(start)
    ensures var a := RunActions(start, HEAP_START, PollStores()).0;
      && Idle(a) && SameBut(start, a, {API_FRAME}) && a.pmm == start.pmm && |a.mem| == |start.mem|
    ensures RunActions(start, HEAP_START, PollStores()).1 == HEAP_START
  {
    hide Idle, RunActions, Walk, Stores;
    StoresEffect(start, HEAP_START, OUTPUT_OFFSET, seq(16, i => 0 as byte));
    StoresStay(start, HEAP_START, KERNEL_API_ADDRESS + OUTPUT_OFFSET, seq(16, i => 0 as byte));
  }

  lemma {:induction false} SameTablesFor(start: Vm, a: Vm, n: nat)
    requires SameBut(start, a, {API_FRAME})
    ensures TablesFor(a, {}, 0, n) == TablesFor(start, {}, 0, n)
    ensures Room(start, 0, n) ==> Room(a, 0, n)
  {
    hide Walk, TablesFor, HeapPlaces;
    assert forall p :: At(a, p) == At(start, p);
    assert Missing(a, HeapPlaces(0, n)) == Missing(start, HeapPlaces(0, n));
    var none: set<Pos> := {};
    TablesAfter(start, a, none, none, 0, n);
    assert none + none == none;
  }

  lemma {:induction false} FirstIs(start: Vm, n: nat)
    requires RunActions(start, HEAP_START, PollStores()).1 == HEAP_START
    ensures Working(start, [], [Grow(n, RW)]) == AllocFrom(RunActions(start, HEAP_START, PollStores()).0, HEAP_START, n, RW)
  {
    hide PollStores, AllocFrom;
    var (a, next) := RunActions(start, HEAP_START, PollStores());
    RunActionsJoin(start, HEAP_START, PollStores(), [Grow(n, RW)]);
    assert [Grow(n, RW)][1..] == [];
    AlignedNext(0);
    HeapStart();
  }

  lemma {:induction false} GrowthLegal(n: nat)
    ensures Legal([], [Grow(n, RW)], n) && Total([Grow(n, RW)]) == n
  {
    assert [Grow(n, RW)][1..] == [];
  }

  // For any number of cycles of up to n pages: the stores to the API page are harmless in every state
  // the machine can be in, if and only if first fit spares the frame over n pages.
  lemma {:induction false} RunsHarmless(start: Vm, n: nat)
    requires Idle(start) && Room(start, 0, n) && API_FRAME < |start.mem|
    ensures (forall cycles, actions :: Legal(cycles, actions, n) ==> Harmless(Working(start, cycles, actions), Total(actions)))
      <==> Spares(start, 0, n)
  {
    hide Idle, Room, Harmless, Working, TablesFor, AfterPages, Legal, Total, HeapInvFrom, PagesAdded;
    if Spares(start, 0, n) {
      assert Ready(start, n);
      forall cycles, actions | Legal(cycles, actions, n)
        ensures Harmless(Working(start, cycles, actions), Total(actions))
      {
        LegalHarmless(start, cycles, actions, n);
      }
    } else {
      FirstGrowth(start, n);
      GrowthLegal(n);
      var c := Working(start, [], [Grow(n, RW)]);
      var a, blocks :| Idle(a) && HeapInv(c, blocks) && |blocks| == n && PagesAdded(a, c, [], blocks, RW)
        && a.pmm == start.pmm && |a.mem| == |start.mem|
        && c.pmm.free == AfterPages(start.pmm.free, GeometryOf(start.pmm), TablesFor(start, {}, 0, n));
      GrowthHarms(a, c, blocks, RW);
    }
  }

  // ---- from the allocator before boot --------------------------------------------------------------------

  // Below frame low, which no wholly free block reaches, there is a free frame for every table of boot
  // and of heaps of n pages.
  predicate TablesFitBelow(pmm: Pmm, h: Handover, n: nat, low: nat) {
    && low <= API_FRAME && low <= pmm.total && NoneBelow(pmm.free, GeometryOf(pmm), low)
    && 1 + |BootPlaces(h)| + HeapTables(n) <= |Below(pmm.free, low)|
  }

  // The block of the API frame is broken up, or the blocks below it are enough for n pages.
  predicate BlocksSuffice(free: set<nat>, n: nat) {
    !WhollyFree(free, 128) || |WholeBlocks(free, 128)| >= n
  }

  // Then boot and its heaps take no wholly free block for a table, and the pages take those in order.
  lemma {:induction false} BootReadyExact(mem: Mem, pmm: Pmm, h: Handover, n: nat, low: nat)
    requires CanInit(mem, pmm, h) && PmmOk(pmm) && OffHeap(pmm, h)
    requires TablesFitBelow(pmm, h, n, low) && |WholeBlocks(pmm.free, pmm.bytes / 64)| >= n + HeapTables(n)
    ensures ApiSpared(pmm, h) && Idle(BootVm(mem, pmm, h)) && Room(BootVm(mem, pmm, h), 0, n)
    ensures Spares(BootVm(mem, pmm, h), 0, n) <==> BlocksSuffice(pmm.free, n)
  {
    hide CanInit, OffHeap, BootVm, BootPlaces, HeapTables, Room, TablesFor, AfterPages, WholeBlocks, WhollyFree, Booting,
         InitTranslation, Walk, HeapInvFrom, ApiOwned;
    SubsetSize(Below(pmm.free, low), Below(pmm.free, API_FRAME));
    BootCorrect(mem, pmm, h);
    BootLeaves(mem, pmm, h, 0, low);
    var vm := BootVm(mem, pmm, h);
    HeapGeometry(vm, pmm);
    WholeAbove(pmm.free, vm.pmm.free, GeometryOf(pmm), low);
    RoomFromBlocks(vm, n);
    if API_FRAME in pmm.free {
      FramesBelowTotal(mem, pmm, h);
      assert API_FRAME !in pmm.free - vm.pmm.free;
      SparesExact(vm, n, low);
    } else {
      assert !WhollyFree(pmm.free, 128) by { FirstInBlock(pmm.free); }
    }
  }

  lemma {:induction false} FirstInBlock(free: set<nat>)
    requires API_FRAME !in free
    ensures !WhollyFree(free, 128)
  {
    assert API_FRAME in BlockFrames(128);
  }

  lemma {:induction false} FramesBelowTotal(mem: Mem, pmm: Pmm, h: Handover)
    requires CanInit(mem, pmm, h) && PmmOk(pmm) && API_FRAME in pmm.free
    ensures API_FRAME < pmm.total && pmm.bytes / 64 >= 128
  {
  }

  lemma {:induction false} HeapGeometry(vm: Vm, pmm: Pmm)
    requires Idle(vm) && PmmOk(pmm) && vm.pmm.total == pmm.total
    ensures GeometryOf(vm.pmm) == GeometryOf(pmm) && vm.pmm.bytes == pmm.bytes
  {
    hide VmInv, HeapWalks, ApiOwned;
  }

  // When all that was taken lies below low, the wholly free blocks are the same.
  lemma {:induction false} WholeAbove(free: set<nat>, rest: set<nat>, g: Geometry, low: nat)
    requires NoneBelow(free, g, low) && rest <= free && free - rest <= Below(free, low)
    ensures NoneBelow(rest, g, low)
    ensures forall limit: nat :: limit <= g.blocks ==> WholeBlocks(rest, limit) == WholeBlocks(free, limit)
  {
    hide WhollyFree, Below;
    forall b | 0 <= b < g.blocks
      ensures WhollyFree(rest, b) <==> WhollyFree(free, b)
    {
      if WhollyFree(free, b) {
        BlocksAbove(free, rest, low, b);
      }
      StillWhole(free, rest, b);
    }
  }

  lemma {:induction false} StillWhole(free: set<nat>, rest: set<nat>, b: nat)
    requires rest <= free
    ensures WhollyFree(rest, b) ==> WhollyFree(free, b)
  {
  }

  lemma {:induction false} SparesExact(vm: Vm, n: nat, low: nat)
    requires Idle(vm) && Room(vm, 0, n) && API_FRAME in vm.pmm.free && low <= API_FRAME
    requires NoneBelow(vm.pmm.free, GeometryOf(vm.pmm), low) && HeapTables(n) <= |Below(vm.pmm.free, low)|
    requires low <= vm.pmm.total
    ensures Spares(vm, 0, n) <==> BlocksSuffice(vm.pmm.free, n)
  {
    hide HeapInvFrom, ApiOwned, Room, TablesFor, AfterPages, WholeBlocks, WhollyFree, NoneBelow, Below, Suffice, Blocks,
         HeapPlaces, HeapTables, PagesAdded, AllocFrom;
    IdleHeap(vm);
    AllocFromCorrect(vm, [], n, RW);
    TablesSum(vm, {}, 0, n);
    SubsetSize(Missing(vm, HeapPlaces(0, n) - {}), HeapPlaces(0, n));
    HeapPlacesSize(n);
    BlockInside(vm, 128);
    SparedExact(vm.pmm.free, GeometryOf(vm.pmm), TablesFor(vm, {}, 0, n), low, 128);
  }

  // A wholly free block is a block of the bitmap.
  lemma {:induction false} BlockInside(vm: Vm, b: nat)
    requires HeapInv(vm, [])
    ensures WhollyFree(vm.pmm.free, b) ==> b < vm.pmm.bytes / 64
  {
    if WhollyFree(vm.pmm.free, b) {
      assert 512 * b + 511 in BlockFrames(b);
    }
  }

  // Whatever runs on it, a machine on which first fit finds room for all tables below the wholly free
  // blocks has harmless stores to the API page for cycles of up to n pages, if and only if the blocks
  // below that of the API frame are enough, or that block is broken up.
  lemma {:induction false} BootRunsHarmless(mem: Mem, pmm: Pmm, h: Handover, n: nat, low: nat)
    requires CanInit(mem, pmm, h) && PmmOk(pmm) && OffHeap(pmm, h) && API_FRAME < |mem|
    requires TablesFitBelow(pmm, h, n, low) && |WholeBlocks(pmm.free, pmm.bytes / 64)| >= n + HeapTables(n)
    ensures (forall cycles, actions :: Legal(cycles, actions, n) ==>
               Harmless(Working(BootVm(mem, pmm, h), cycles, actions), Total(actions)))
      <==> BlocksSuffice(pmm.free, n)
  {
    hide *;
    BootReadyExact(mem, pmm, h, n, low);
    BootCorrect(mem, pmm, h);
    RunsHarmless(BootVm(mem, pmm, h), n);
  }

  // Without that: as many wholly free blocks as pages and tables of boot and heap, below the API frame
  // if it is the allocator's.
  lemma {:induction false} BootReady(mem: Mem, pmm: Pmm, h: Handover, n: nat)
    requires CanInit(mem, pmm, h) && PmmOk(pmm) && OffHeap(pmm, h)
    requires var need := n + HeapTables(n) + 1 + |BootPlaces(h)|;
      |WholeBlocks(pmm.free, if API_FRAME in pmm.free then 128 else pmm.bytes / 64)| >= need
    ensures ApiSpared(pmm, h) && Ready(BootVm(mem, pmm, h), n)
  {
    hide CanInit, OffHeap, BootVm, BootPlaces, HeapTables, WholeBlocks, WhollyFree, Booting, InitTranslation, Walk,
         HeapInvFrom, ApiOwned, Below, Ready;
    var vm := BootVm(mem, pmm, h);
    LowBlockFrames(pmm.free, 128);
    assert 512 * 128 == API_FRAME;
    BootCorrect(mem, pmm, h);
    BootLeaves(mem, pmm, h, pmm.bytes / 64, 0);
    BootLeaves(mem, pmm, h, 128, 0);
    HeapGeometry(vm, pmm);
    if API_FRAME in pmm.free {
      FramesBelowTotal(mem, pmm, h);
      MoreBlocks(vm.pmm.free, 128, pmm.bytes / 64);
    }
    ReadyFromBlocks(vm, n);
  }

  lemma {:induction false} MoreBlocks(free: set<nat>, m: nat, n: nat)
    requires m <= n
    ensures |WholeBlocks(free, m)| <= |WholeBlocks(free, n)|
  {
    SubsetSize(WholeBlocks(free, m), WholeBlocks(free, n));
  }
}
