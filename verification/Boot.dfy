/** From vmm_init and the API page to an empty heap. */
module Boot {
  import opened Bytes
  import opened Wrappers
  import opened Sets
  import opened PmmSpec
  import opened MemoryMap
  import opened Paging
  import opened PageTree
  import opened VmSpec
  import opened VmProofs
  import opened VmRange
  import opened VmInit
  import opened HeapSpec
  import opened HeapProofs
  import opened HeapRuns
  import opened VirtualMemory
  import opened KernelApi
  import opened HeapCycles

  // What the boot loader hands over, and the bytes of the API struct: addresses in the kernel image.
  datatype Handover = Handover(kernelVirt: nat, kernelPhys: nat, entries: seq<MemEntry>, hhdm: nat, api: seq<byte>)

  function InitVm(mem: Mem, pmm: Pmm, h: Handover): Vm {
    Init(mem, pmm, h.kernelVirt, h.kernelPhys, h.entries, h.hhdm)
  }

  // vmm_init, then the page of the kernel API, mapped onto the frame of the same number.
  function MappedVm(mem: Mem, pmm: Pmm, h: Handover): Vm {
    MapRange(InitVm(mem, pmm, h), KERNEL_API_ADDRESS, KERNEL_API_ADDRESS, 4096, RW, 0)
  }

  // Then the struct is stored in it.
  function BootVm(mem: Mem, pmm: Pmm, h: Handover): Vm {
    RunActions(MappedVm(mem, pmm, h), HEAP_START, Stores(KERNEL_API_ADDRESS, h.api)).0
  }

  predicate HandoverOk(h: Handover) {
    && (forall i :: 0 <= i < |h.entries| ==> Placed(h.entries[i]))
    && h.hhdm % FRAME_SIZE == 0 && KernelSize(h.entries) <= SPACE
    && |h.api| == API_BYTES
  }

  // Bytes of address space the heap can ever reach: one 2 MB page for each 2 MB of frames.
  function HeapBytes(pmm: Pmm): nat {
    pmm.total / 512 * BLOCK_SIZE
  }

  // No range mapped at boot meets that part of the address space.
  predicate OffHeap(pmm: Pmm, h: Handover) {
    && Apart(HEAP_START, HeapBytes(pmm), 0, 0x400000)
    && Apart(HEAP_START, HeapBytes(pmm), h.kernelVirt, KernelSize(h.entries))
    && Apart(HEAP_START, HeapBytes(pmm), KERNEL_API_ADDRESS, 4096)
    && (forall i :: 0 <= i < |h.entries| && DirectMapped(h.entries[i]) ==>
          Apart(HEAP_START, HeapBytes(pmm), h.entries[i].base + h.hhdm, h.entries[i].length))
  }

  lemma {:induction false} HeapRange(w: nat, n: nat)
    requires n <= HUGE_COUNT
    ensures HeapIndex(w) < n <==> InRange(HEAP_START, n * BLOCK_SIZE, w)
  {
    HeapPages(w);
  }

  lemma {:induction false} HeapPages(w: nat)
    ensures PagesAfter(HEAP_START, w) == 512 * HeapIndex(w) + Index(w, 0)
  {
    ShiftSteps(w);
    SplitOffset(w / 0x1000, HEAP_START / 0x1000);
  }

  lemma {:induction false} SplitOffset(x: nat, h: nat)
    requires h % 512 == 0
    ensures (x - h) % PAGE_COUNT == 512 * ((x / 512 - h / 512) % HUGE_COUNT) + x % 512
  {
    var d := x - h;
    assert d / 512 == x / 512 - h / 512 && d % 512 == x % 512;
    assert d % PAGE_COUNT == 512 * (d / 512 % HUGE_COUNT) + d % 512;
  }

  // The range has no page among the first n of the heap.
  ghost predicate OffPages(v: nat, size: nat, n: nat) {
    forall w :: InRange(v, size, w) ==> HeapIndex(w) >= n
  }

  lemma {:induction false} ApartOff(v: nat, size: nat, n: nat)
    requires n <= HUGE_COUNT && Apart(HEAP_START, n * BLOCK_SIZE, v, size)
    ensures OffPages(v, size, n)
  {
    forall w | InRange(v, size, w)
      ensures HeapIndex(w) >= n
    {
      HeapRange(w, n);
      if InRange(HEAP_START, n * BLOCK_SIZE, w) {
        ApartRanges(HEAP_START, n * BLOCK_SIZE, v, size, w);
      }
    }
  }

  // A range off the heap has no PT for a heap page.
  lemma {:induction false} PtOff(v: nat, size: nat, k: nat, w: nat, n: nat)
    requires size <= SPACE && OffPages(v, size, n) && HeapIndex(w) < n
    ensures PosOf(w, 3) !in RangePlaces(v, size, 4096 * k)
    decreases size - 4096 * k
  {
    hide PosOf;
    if 4096 * k < size {
      PtOff(v, size, k + 1, w, n);
      PageAfter(v, k, v + 4096 * k);
      PathIs(v + 4096 * k);
      DepthsDiffer(v + 4096 * k, w);
      if PosOf(w, 3) == PosOf(v + 4096 * k, 3) {
        SamePtIndex(w, v + 4096 * k);
      }
    }
  }

  lemma {:induction false} DepthsDiffer(v: nat, w: nat)
    ensures PosOf(w, 3) != PosOf(v, 1) && PosOf(w, 3) != PosOf(v, 2)
  {
  }

  lemma {:induction false} SamePtIndex(v: nat, w: nat)
    requires PosOf(v, 3) == PosOf(w, 3)
    ensures HeapIndex(v) == HeapIndex(w)
  {
    SameHugePageSlots(v, w);
    HeapPageOf(HeapIndex(v), v);
    HeapPageOf(HeapIndex(v), w);
  }

  // The first n heap pages are unmapped and have no PT.
  ghost predicate HeapClear(vm: Vm, n: nat) {
    forall w :: HeapIndex(w) < n ==> At(vm, PosOf(w, 3)).None? && Walk(vm.mem, vm.root, w) == Unmapped
  }

  lemma {:induction false} EntriesPtOff(entries: seq<MemEntry>, hhdm: nat, w: nat, n: nat)
    requires forall i :: 0 <= i < |entries| ==> Placed(entries[i])
    requires forall i :: 0 <= i < |entries| && DirectMapped(entries[i]) ==> OffPages(entries[i].base + hhdm, entries[i].length, n)
    requires HeapIndex(w) < n
    ensures PosOf(w, 3) !in EntriesPlaces(entries, hhdm)
  {
    hide PosOf, OffPages, RangePlaces, HeapIndex;
    if entries != [] {
      var front, e := entries[..|entries| - 1], entries[|entries| - 1];
      EntriesPtOff(front, hhdm, w, n);
      if DirectMapped(e) {
        PtOff(e.base + hhdm, e.length, 0, w, n);
        assert 4096 * 0 == 0;
      }
    }
  }

  lemma {:induction false} WindowOff(entries: seq<MemEntry>, hhdm: nat, w: nat, n: nat)
    requires forall i :: 0 <= i < |entries| ==> Placed(entries[i])
    requires forall i :: 0 <= i < |entries| && DirectMapped(entries[i]) ==> OffPages(entries[i].base + hhdm, entries[i].length, n)
    requires HeapIndex(w) < n && hhdm % FRAME_SIZE == 0
    ensures WindowFrame(hhdm, w) !in Window(entries)
  {
    hide HeapIndex, InRange, WindowFrame;
    if entries != [] {
      var front, e := entries[..|entries| - 1], entries[|entries| - 1];
      WindowOff(front, hhdm, w, n);
      if DirectMapped(e) {
        WindowOffset(e.base, e.length, hhdm, w);
      }
    }
  }

  predicate PmmOk(pmm: Pmm) {
    pmm.bytes == (pmm.total + 7) / 8 < 0x8000_0000
  }

  lemma {:induction false} HeapPagesBound(pmm: Pmm)
    requires PmmOk(pmm)
    ensures pmm.total / 512 <= 0x200_0000 <= HUGE_COUNT
  {
  }

  lemma {:induction false} RangesOff(pmm: Pmm, h: Handover)
    requires PmmOk(pmm) && OffHeap(pmm, h)
    ensures var n := pmm.total / 512;
      && OffPages(0, 0x400000, n) && OffPages(h.kernelVirt, KernelSize(h.entries), n)
      && OffPages(KERNEL_API_ADDRESS, 4096, n)
      && forall i :: 0 <= i < |h.entries| && DirectMapped(h.entries[i]) ==> OffPages(h.entries[i].base + h.hhdm, h.entries[i].length, n)
  {
    hide Apart, OffPages;
    HeapPagesBound(pmm);
    var n := pmm.total / 512;
    ApartOff(0, 0x400000, n);
    ApartOff(h.kernelVirt, KernelSize(h.entries), n);
    ApartOff(KERNEL_API_ADDRESS, 4096, n);
    forall i | 0 <= i < |h.entries| && DirectMapped(h.entries[i])
      ensures OffPages(h.entries[i].base + h.hhdm, h.entries[i].length, n)
    {
      ApartOff(h.entries[i].base + h.hhdm, h.entries[i].length, n);
    }
  }

  predicate CanInit(mem: Mem, pmm: Pmm, h: Handover) {
    MemoryFits(mem, pmm) && InitCost(h.entries) + TableBound(1) <= |pmm.free| && HandoverOk(h)
  }

  lemma {:induction false} InitHeapClear(mem: Mem, pmm: Pmm, h: Handover)
    requires CanInit(mem, pmm, h) && PmmOk(pmm) && OffHeap(pmm, h)
    ensures HeapClear(InitVm(mem, pmm, h), pmm.total / 512)
  {
    hide Walk, TableAt, PosOf, Window, WindowFrame, Init, InitPlaces, OffPages, Booting, PrepPml4, HeapIndex, InRange,
         TableBound, EntriesCost, MemoryFits, Apart;
    var n := pmm.total / 512;
    var vm := InitVm(mem, pmm, h);
    InitCorrect(mem, pmm, h.kernelVirt, h.kernelPhys, h.entries, h.hhdm);
    forall w | HeapIndex(w) < n
      ensures At(vm, PosOf(w, 3)).None? && Walk(vm.mem, vm.root, w) == Unmapped
    {
      NoPtYet(mem, pmm, w);
      HeapPageOff(pmm, h, w);
    }
  }

  // A heap page is in none of the boot ranges.
  lemma {:induction false} HeapPageOff(pmm: Pmm, h: Handover, w: nat)
    requires HandoverOk(h) && PmmOk(pmm) && OffHeap(pmm, h) && HeapIndex(w) < pmm.total / 512
    ensures PosOf(w, 3) !in InitPlaces(h.kernelVirt, h.entries, h.hhdm)
    ensures InitTranslation(h.kernelVirt, h.kernelPhys, h.entries, h.hhdm, w) == Unmapped
  {
    hide PosOf, Window, WindowFrame, RangePlaces, EntriesPlaces, OffPages, HeapIndex, InRange, OffHeap;
    var n := pmm.total / 512;
    RangesOff(pmm, h);
    assert 4096 * 0 == 0;
    PtOff(0, 0x400000, 0, w, n);
    PtOff(h.kernelVirt, KernelSize(h.entries), 0, w, n);
    EntriesPtOff(h.entries, h.hhdm, w, n);
    WindowOff(h.entries, h.hhdm, w, n);
    OffPage(0, 0x400000, w, n);
    OffPage(h.kernelVirt, KernelSize(h.entries), w, n);
  }

  lemma {:induction false} OffPage(v: nat, size: nat, w: nat, n: nat)
    requires OffPages(v, size, n) && HeapIndex(w) < n
    ensures !InRange(v, size, w)
  {
  }

  lemma {:induction false} NoPtYet(mem: Mem, pmm: Pmm, w: nat)
    requires MemoryFits(mem, pmm) && pmm.free != {}
    ensures At(PrepPml4(mem, pmm), PosOf(w, 3)).None?
  {
    PrepPml4Correct(mem, pmm);
  }

  lemma {:induction false} ClearStays(a: Vm, b: Vm, v: nat, phys: nat, size: nat, flags: Flags, n: nat)
    requires size <= SPACE && OffPages(v, size, n) && HeapClear(a, n)
    requires Grew(a, b, RangePlaces(v, size, 0), {}) && RangeMapped(a, b, v, phys, size, flags, 0)
    ensures HeapClear(b, n)
  {
    hide Walk, TableAt, PosOf, RangePlaces, HeapIndex, InRange, OffPages;
    assert 4096 * 0 == 0;
    forall w | HeapIndex(w) < n
      ensures At(b, PosOf(w, 3)).None? && Walk(b.mem, b.root, w) == Unmapped
    {
      PtOff(v, size, 0, w, n);
      OffPage(v, size, w, n);
    }
  }

  lemma {:induction false} ClearIsEmptyHeap(vm: Vm)
    requires VmInv(vm) && PmmOk(vm.pmm) && HeapClear(vm, vm.pmm.total / 512)
    ensures HeapInv(vm, [])
  {
  }

  // With the API page mapped: an empty heap, every other translation that of vmm_init, tables only on
  // frames the allocator had, every other frame as it was.
  lemma {:induction false} MappedCorrect(mem: Mem, pmm: Pmm, h: Handover)
    requires CanInit(mem, pmm, h) && PmmOk(pmm) && OffHeap(pmm, h)
    ensures var vm := MappedVm(mem, pmm, h);
      && HeapInv(vm, []) && Booting(vm, pmm.free) && vm.pmm.total == pmm.total && |vm.mem| == |mem|
      && (forall f :: 0 <= f < |mem| && f !in pmm.free ==> vm.mem[f] == mem[f])
      && Grew(PrepPml4(mem, pmm), vm, BootPlaces(h), {})
      && forall w :: Walk(vm.mem, vm.root, w) ==
           if PagesAfter(KERNEL_API_ADDRESS, w) == 0 then Mapped(KERNEL_API_ADDRESS / 4096, RW)
           else InitTranslation(h.kernelVirt, h.kernelPhys, h.entries, h.hhdm, w)
  {
    hide VmInv, Walk, Init, RangePlaces, HeapClear, OffHeap, Grew, Booting, MapRange, TableBound, PrepPml4, InitTranslation,
         OffPages, EntriesCost, InitPlaces, TableAt;
    var a := InitVm(mem, pmm, h);
    assert 0x400000 <= SPACE && Pages(4096) == 1;
    InitCorrect(mem, pmm, h.kernelVirt, h.kernelPhys, h.entries, h.hhdm);
    InitHeapClear(mem, pmm, h);
    RangeAtBoot(a, KERNEL_API_ADDRESS, KERNEL_API_ADDRESS, 4096, pmm.free);
    var b := MappedVm(mem, pmm, h);
    RangesOff(pmm, h);
    ClearStays(a, b, KERNEL_API_ADDRESS, KERNEL_API_ADDRESS, 4096, RW, pmm.total / 512);
    InitTotals(mem, pmm, h);
    BootTotals(a, b, pmm);
    ClearIsEmptyHeap(b);
    FlagsOfRW(KERNEL_API_ADDRESS);
    GrewThen(PrepPml4(mem, pmm), a, b, InitPlaces(h.kernelVirt, h.entries, h.hhdm), RangePlaces(KERNEL_API_ADDRESS, 4096, 0), BootPlaces(h));
    BootKeepsOthers(mem, pmm, b, BootPlaces(h));
  }

  // The places of all tables below the root.
  function BootPlaces(h: Handover): set<Pos> {
    InitPlaces(h.kernelVirt, h.entries, h.hhdm) + RangePlaces(KERNEL_API_ADDRESS, 4096, 0)
  }

  lemma {:induction false} BootKeepsOthers(mem: Mem, pmm: Pmm, b: Vm, s: set<Pos>)
    requires MemoryFits(mem, pmm) && pmm.free != {} && Grew(PrepPml4(mem, pmm), b, s, {})
    ensures |b.mem| == |mem| && forall f :: 0 <= f < |mem| && f !in pmm.free ==> b.mem[f] == mem[f]
  {
    PrepPml4Correct(mem, pmm);
    var a := PrepPml4(mem, pmm);
    forall f | 0 <= f < |mem| && f !in pmm.free
      ensures b.mem[f] == mem[f]
    {
      assert a.mem[f] == mem[f];
      assert !IsTable(a.mem, a.root, f) by {
        forall p
          ensures TableAt(a.mem, a.root, p) != Some(f)
        {
          assert At(a, p) == if p == Root then Some(a.root) else None;
        }
      }
    }
  }

  // Storing the struct.
  lemma {:induction false} StructStored(mem: Mem, pmm: Pmm, h: Handover)
    requires CanInit(mem, pmm, h) && Idle(MappedVm(mem, pmm, h))
    ensures Idle(BootVm(mem, pmm, h)) && SameBut(MappedVm(mem, pmm, h), BootVm(mem, pmm, h), {API_FRAME})
  {
    hide Idle, SameBut, MappedVm, RunActions, Stores, MemoryFits, InitCost, Placed;
    StoresEffect(MappedVm(mem, pmm, h), HEAP_START, 0, h.api);
    assert KERNEL_API_ADDRESS + 0 == KERNEL_API_ADDRESS;
  }

  lemma {:induction false} StoresEffect(a: Vm, next: nat, offset: nat, bytes: seq<byte>)
    requires Idle(a) && offset + |bytes| <= 4096
    ensures var b := RunActions(a, next, Stores(KERNEL_API_ADDRESS + offset, bytes)).0;
      Idle(b) && SameBut(a, b, {API_FRAME})
    decreases |bytes|
  {
    hide Idle, SameBut, OnApiPage, StoreByte;
    if bytes == [] {
      SameButRefl(a);
    } else {
      var actions := Stores(KERNEL_API_ADDRESS + offset, bytes);
      assert actions[0] == Write(KERNEL_API_ADDRESS + offset, bytes[0]);
      assert actions[1..] == Stores(KERNEL_API_ADDRESS + (offset + 1), bytes[1..]);
      ApiAddress(offset);
      IdleStored(a, KERNEL_API_ADDRESS + offset, bytes[0]);
      var b := StoreByte(a, KERNEL_API_ADDRESS + offset, bytes[0]);
      StoresEffect(b, next, offset + 1, bytes[1..]);
      SameButTrans(a, b, RunActions(b, next, actions[1..]).0, {API_FRAME});
    }
  }

  lemma {:induction false} SameButRefl(a: Vm)
    ensures SameBut(a, a, {API_FRAME})
  {
  }

  lemma {:induction false} IdleStored(a: Vm, v: nat, b: byte)
    requires Idle(a) && OnApiPage(v)
    ensures Idle(StoreByte(a, v, b)) && SameBut(a, StoreByte(a, v, b), {API_FRAME})
  {
    hide HeapInvFrom, Walk, OnApiPage, StoreByte, IsTable;
    StoreEffect(a, v, b, API_FRAME);
    var c := StoreByte(a, v, b);
    SameButMore(a, c, {API_FRAME}, Open([]));
    SameShapeInv(a, c, []);
    SameTablesIsTable(a.mem, c.mem, a.root, API_FRAME);
  }

  lemma {:induction false} BootStored(a: Vm, b: Vm, mem: Mem, pmm: Pmm)
    requires SameBut(a, b, {API_FRAME}) && Booting(a, pmm.free) && a.pmm.total == pmm.total && |a.mem| == |mem| && Idle(b)
    requires forall f :: 0 <= f < |mem| && f !in pmm.free ==> a.mem[f] == mem[f]
    ensures Booting(b, pmm.free) && b.pmm.total == pmm.total && |b.mem| == |mem| && SameWalks(a, b)
    ensures forall f :: 0 <= f < |mem| && f !in pmm.free && f != API_FRAME ==> b.mem[f] == mem[f]
    ensures forall w :: Walk(b.mem, b.root, w) == Walk(a.mem, a.root, w)
  {
    hide Walk, HeapWalks, BlockOwned, PosOf;
    assert forall p :: At(b, p) == At(a, p);
    forall w
      ensures NoHugeLeafAt(b, w)
    {
      assert NoHugeLeafAt(a, w);
    }
  }

  lemma {:induction false} BootTotals(a: Vm, b: Vm, pmm: Pmm)
    requires Grew(a, b, RangePlaces(KERNEL_API_ADDRESS, 4096, 0), {}) && Booting(b, pmm.free)
    requires a.pmm.total == pmm.total && a.pmm.bytes == pmm.bytes
    ensures VmInv(b) && b.pmm.total == pmm.total && b.pmm.bytes == pmm.bytes
  {
  }

  lemma {:induction false} InitTotals(mem: Mem, pmm: Pmm, h: Handover)
    requires CanInit(mem, pmm, h)
    ensures InitVm(mem, pmm, h).pmm.total == pmm.total && InitVm(mem, pmm, h).pmm.bytes == pmm.bytes
  {
    hide Init, Booting, InitPlaces, EntriesCost, TableBound, Walk;
    assert pmm.free != {};
    InitCorrect(mem, pmm, h.kernelVirt, h.kernelPhys, h.entries, h.hhdm);
  }
}
