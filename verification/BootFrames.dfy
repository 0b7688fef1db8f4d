/** The frames boot takes, what it leaves for the heap, and the machine after boot. */
module BootFrames {
  import opened Bytes
  import opened Wrappers
  import opened Sets
  import opened PmmSpec
  import opened MemoryMap
  import opened Paging
  import opened PageTree
  import opened VmSpec
  import opened VmProofs
  import opened VmRange
  import opened VmInit
  import opened HeapSpec
  import opened HeapProofs
  import opened HeapRuns
  import opened VirtualMemory
  import opened KernelApi
  import opened FirstFit
  import opened HeapPlacement
  import opened Spared
  import opened HeapCycles
  import opened Boot

  // ---- first fit takes the lowest frames -----------------------------------------------------------

  lemma {:induction false} AllocLowest(pool: set<nat>, pmm: Pmm)
    requires LowestTaken(pool, pmm.free)
    ensures LowestTaken(pool, AllocNext(pmm).0.free)
  {
  }

  lemma {:induction false} DescendLowest(pool: set<nat>, vm: Vm, t: nat, v: nat, level: nat, stop: nat)
    requires stop <= level < 4 && LowestTaken(pool, vm.pmm.free)
    ensures LowestTaken(pool, Descend(vm, t, v, level, stop).0.pmm.free)
    decreases level
  {
    hide AllocNext, LowestTaken, Index, Lookup, Store, Clear;
    if level != stop {
      AllocLowest(pool, vm.pmm);
      var (b, child) := NextTable(vm, t, Index(v, level));
      DescendLowest(pool, b, child, v, level - 1, stop);
    }
  }

  lemma {:induction false} RangeLowest(pool: set<nat>, vm: Vm, v: nat, phys: nat, size: nat, flags: Flags, offset: nat)
    requires LowestTaken(pool, vm.pmm.free)
    ensures LowestTaken(pool, MapRange(vm, v, phys, size, flags, offset).pmm.free)
    decreases size - offset
  {
    hide LowestTaken, Descend, Store, Index;
    if offset < size {
      DescendLowest(pool, vm, vm.root, v + offset, 3, 0);
      RangeLowest(pool, MapPage(vm, v + offset, phys + offset, flags), v, phys, size, flags, offset + FRAME_SIZE);
    }
  }

  lemma {:induction false} EntriesLowest(pool: set<nat>, vm: Vm, entries: seq<MemEntry>, hhdm: nat)
    requires LowestTaken(pool, vm.pmm.free)
    ensures LowestTaken(pool, MapEntries(vm, entries, hhdm).pmm.free)
  {
    hide LowestTaken, MapRange;
    if entries != [] {
      var front, e := entries[..|entries| - 1], entries[|entries| - 1];
      EntriesLowest(pool, vm, front, hhdm);
      if DirectMapped(e) {
        RangeLowest(pool, MapEntries(vm, front, hhdm), e.base + hhdm, e.base, e.length, RW, 0);
      }
    }
  }

  lemma {:induction false} BootLowest(mem: Mem, pmm: Pmm, h: Handover)
    ensures LowestTaken(pmm.free, MappedVm(mem, pmm, h).pmm.free)
  {
    hide MapRange, MapEntries, AllocNext;
    AllocLowest(pmm.free, pmm);
    hide LowestTaken;
    var vm0 := PrepPml4(mem, pmm);
    RangeLowest(pmm.free, vm0, 0, 0, 0x400000, RW, 0);
    var vm1 := MapRange(vm0, 0, 0, 0x400000, RW, 0);
    RangeLowest(pmm.free, vm1, h.kernelVirt, h.kernelPhys, KernelSize(h.entries), RW, 0);
    var vm2 := MapRange(vm1, h.kernelVirt, h.kernelPhys, KernelSize(h.entries), RW, 0);
    EntriesLowest(pmm.free, vm2, h.entries, h.hhdm);
    RangeLowest(pmm.free, InitVm(mem, pmm, h), KERNEL_API_ADDRESS, KERNEL_API_ADDRESS, 4096, RW, 0);
  }

  // ---- at boot -----------------------------------------------------------------------------------

  lemma {:induction false} RangeNoRoot(v: nat, size: nat, offset: nat)
    ensures Root !in RangePlaces(v, size, offset)
    decreases size - offset
  {
    hide PosOf;
    if offset < size {
      PathIs(v + offset);
      PosNoRoot(v + offset);
      RangeNoRoot(v, size, offset + FRAME_SIZE);
    }
  }

  lemma {:induction false} PosNoRoot(v: nat)
    ensures PosOf(v, 1) != Root && PosOf(v, 2) != Root && PosOf(v, 3) != Root
  {
  }

  lemma {:induction false} EntriesNoRoot(entries: seq<MemEntry>, hhdm: nat)
    ensures Root !in EntriesPlaces(entries, hhdm)
  {
    hide RangePlaces;
    if entries != [] {
      var e := entries[|entries| - 1];
      EntriesNoRoot(entries[..|entries| - 1], hhdm);
      RangeNoRoot(e.base + hhdm, e.length, 0);
    }
  }

  lemma {:induction false} BootNoRoot(h: Handover)
    ensures Root !in BootPlaces(h)
  {
    hide RangePlaces, EntriesPlaces;
    RangeNoRoot(0, 0x400000, 0);
    RangeNoRoot(h.kernelVirt, KernelSize(h.entries), 0);
    EntriesNoRoot(h.entries, h.hhdm);
    RangeNoRoot(KERNEL_API_ADDRESS, 4096, 0);
  }

  // Boot takes one frame for the root and one for each place, and these are the tables.
  lemma {:induction false} BootTakes(mem: Mem, pmm: Pmm, h: Handover, f: nat)
    requires CanInit(mem, pmm, h) && PmmOk(pmm) && OffHeap(pmm, h)
    ensures var vm := MappedVm(mem, pmm, h);
      && vm.pmm.free <= pmm.free && |pmm.free - vm.pmm.free| == 1 + |BootPlaces(h)|
      && (IsTable(vm.mem, vm.root, f) <==> f in pmm.free && f !in vm.pmm.free)
  {
    hide Walk, TableAt, InitTranslation, BootPlaces, MappedVm, PrepPml4, HeapInvFrom, Placed, OffHeap, EntriesCost,
         TableBound, Grew, VmInv, Added, MemoryFits;
    MappedCorrect(mem, pmm, h);
    assert pmm.free != {} by { FreeThere(mem, pmm, h); }
    PrepPml4Correct(mem, pmm);
    BootNoRoot(h);
    TakenAre(pmm, PrepPml4(mem, pmm), MappedVm(mem, pmm, h), BootPlaces(h), f);
  }

  lemma {:induction false} FreeThere(mem: Mem, pmm: Pmm, h: Handover)
    requires CanInit(mem, pmm, h)
    ensures pmm.free != {} && MemoryFits(mem, pmm)
  {
    hide MemoryFits, TableBound, EntriesCost;
  }

  lemma {:induction false} TakenSize(pmm: Pmm, a: Vm, b: Vm, s: set<Pos>)
    requires Grew(a, b, s, {}) && VmInv(b) && Root !in s
    requires (forall p :: At(a, p) == if p == Root then Some(a.root) else None) && a.root in pmm.free && a.pmm.free == pmm.free - {a.root}
    ensures pmm.free - b.pmm.free == Added(a, b, s) + {a.root} && Missing(a, s) == s
    ensures b.pmm.free <= pmm.free && |pmm.free - b.pmm.free| == 1 + |s|
  {
    hide IsTree, Untouched;
    assert Missing(a, s) == s;
    GrewSize(a, b, s, {}) by { InvIsTree(b); }
    var taken, root := Added(a, b, s), a.root;
    assert pmm.free - b.pmm.free == taken + {root};
    assert root !in taken;
  }

  lemma {:induction false} TakenAre(pmm: Pmm, a: Vm, b: Vm, s: set<Pos>, f: nat)
    requires Grew(a, b, s, {}) && Booting(b, pmm.free) && Root !in s
    requires (forall p :: At(a, p) == if p == Root then Some(a.root) else None) && a.root in pmm.free && a.pmm.free == pmm.free - {a.root}
    ensures b.pmm.free <= pmm.free && |pmm.free - b.pmm.free| == 1 + |s|
    ensures IsTable(b.mem, b.root, f) <==> f in pmm.free && f !in b.pmm.free
  {
    hide Walk, NoHugeLeafAt;
    TakenSize(pmm, a, b, s);
    if f in pmm.free && f !in b.pmm.free {
      if f == a.root {
        assert At(b, Root) == Some(f);
      } else {
        var p :| p in Missing(a, s) && At(b, p).Some? && At(b, p).value == f;
        assert TableAt(b.mem, b.root, p) == Some(f);
      }
    }
    if IsTable(b.mem, b.root, f) {
      var p :| TableAt(b.mem, b.root, p) == Some(f);
      assert At(b, p) == Some(f);
    }
  }

  lemma {:induction false} EntriesPlacesSize(entries: seq<MemEntry>, hhdm: nat)
    ensures |EntriesPlaces(entries, hhdm)| <= EntriesCost(entries)
  {
    hide RangePlaces, TableBound;
    if entries != [] {
      var e := entries[|entries| - 1];
      EntriesPlacesSize(entries[..|entries| - 1], hhdm);
      RangePlacesSize(e.base + hhdm, e.length);
    }
  }

  // Boot needs no more frames than CanInit asks for.
  lemma {:induction false} BootPlacesSize(h: Handover)
    ensures 1 + |BootPlaces(h)| <= InitCost(h.entries) + TableBound(1)
  {
    hide RangePlaces, TableBound, EntriesPlaces, EntriesCost;
    RangePlacesSize(0, 0x400000);
    RangePlacesSize(h.kernelVirt, KernelSize(h.entries));
    EntriesPlacesSize(h.entries, h.hhdm);
    RangePlacesSize(KERNEL_API_ADDRESS, 4096);
    assert Pages(0x400000) == 1024 && Pages(4096) == 1;
  }

  // The API frame is not one of the allocator's, or has more of its free frames below it than the
  // tables of boot below the root.
  predicate ApiSpared(pmm: Pmm, h: Handover) {
    API_FRAME in pmm.free ==> |Below(pmm.free, API_FRAME)| > |BootPlaces(h)|
  }

  // Boot puts a table on the API frame if and only if that fails.
  lemma {:induction false} ApiSparedExact(mem: Mem, pmm: Pmm, h: Handover)
    requires CanInit(mem, pmm, h) && PmmOk(pmm) && OffHeap(pmm, h)
    ensures !IsTable(MappedVm(mem, pmm, h).mem, MappedVm(mem, pmm, h).root, API_FRAME) <==> ApiSpared(pmm, h)
  {
    hide MappedVm, BootPlaces, IsTable, CanInit, OffHeap, LowestTaken, Below;
    var vm := MappedVm(mem, pmm, h);
    BootTakes(mem, pmm, h, API_FRAME);
    BootLowest(mem, pmm, h);
    if API_FRAME in pmm.free {
      TakenExact(pmm.free, vm.pmm.free, API_FRAME);
    }
  }

  lemma {:induction false} MappedApi(mem: Mem, pmm: Pmm, h: Handover)
    requires CanInit(mem, pmm, h) && PmmOk(pmm) && OffHeap(pmm, h) && ApiSpared(pmm, h)
    ensures Idle(MappedVm(mem, pmm, h))
  {
    hide VmInv, HeapInvFrom, Walk, MappedVm, OffHeap, EntriesCost, TableBound, InitTranslation, Grew, PrepPml4,
         BootPlaces, MemoryFits, ApiSpared;
    MappedCorrect(mem, pmm, h);
    var vm := MappedVm(mem, pmm, h);
    assert KERNEL_API_ADDRESS / 4096 == API_FRAME;
    forall w | OnApiPage(w)
      ensures Walk(vm.mem, vm.root, w) == Mapped(API_FRAME, RW)
    {
      assert PagesAfter(KERNEL_API_ADDRESS, w) == 0;
    }
    ApiSparedExact(mem, pmm, h);
  }

  // After boot, with the API frame spared: an empty heap, every translation still as mapped, tables
  // only on frames the allocator had, and all frames but those and the API frame as they were.
  lemma {:induction false} BootCorrect(mem: Mem, pmm: Pmm, h: Handover)
    requires CanInit(mem, pmm, h) && PmmOk(pmm) && OffHeap(pmm, h) && ApiSpared(pmm, h)
    ensures var vm := BootVm(mem, pmm, h);
      && Idle(vm) && Booting(vm, pmm.free) && vm.pmm.total == pmm.total && |vm.mem| == |mem|
      && (forall f :: 0 <= f < |mem| && f !in pmm.free && f != API_FRAME ==> vm.mem[f] == mem[f])
      && forall w :: Walk(vm.mem, vm.root, w) ==
           if PagesAfter(KERNEL_API_ADDRESS, w) == 0 then Mapped(KERNEL_API_ADDRESS / 4096, RW)
           else InitTranslation(h.kernelVirt, h.kernelPhys, h.entries, h.hhdm, w)
  {
    hide *;
    var a := MappedVm(mem, pmm, h);
    MappedCorrect(mem, pmm, h);
    MappedApi(mem, pmm, h);
    StructStored(mem, pmm, h);
    BootStored(a, BootVm(mem, pmm, h), mem, pmm);
  }

  // ---- what is left for the heap -----------------------------------------------------------------

  // Boot costs at most one wholly free block for each table; and none at low or above, when there is a
  // free frame below low for each table.
  lemma {:induction false} BootLeaves(mem: Mem, pmm: Pmm, h: Handover, limit: nat, low: nat)
    requires CanInit(mem, pmm, h) && PmmOk(pmm) && OffHeap(pmm, h) && ApiSpared(pmm, h)
    ensures var free := BootVm(mem, pmm, h).pmm.free;
      && free <= pmm.free
      && |WholeBlocks(free, limit)| >= |WholeBlocks(pmm.free, limit)| - 1 - |BootPlaces(h)|
      && (|BootPlaces(h)| < |Below(pmm.free, low)| ==>
            && pmm.free - free <= Below(pmm.free, low)
            && |Below(free, low)| == |Below(pmm.free, low)| - 1 - |BootPlaces(h)|)
  {
    hide *;
    var vm := MappedVm(mem, pmm, h);
    MappedApi(mem, pmm, h);
    StructStored(mem, pmm, h);
    SamePmm(vm, BootVm(mem, pmm, h));
    BootTakes(mem, pmm, h, API_FRAME);
    BootLowest(mem, pmm, h);
    FramesLess(pmm.free, limit, pmm.free - vm.pmm.free);
    assert pmm.free - (pmm.free - vm.pmm.free) == vm.pmm.free;
    if |BootPlaces(h)| < |Below(pmm.free, low)| {
      TakenBelow(pmm.free, vm.pmm.free, low);
    }
  }

  lemma {:induction false} SamePmm(a: Vm, b: Vm)
    requires SameBut(a, b, {API_FRAME})
    ensures b.pmm == a.pmm
  {
  }
}
