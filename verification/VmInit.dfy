/** The address space vmm_init sets up. */
module VmInit {
  import opened Wrappers
  import opened Sets
  import opened PmmSpec
  import opened MemoryMap
  import opened Paging
  import opened PageTree
  import opened VmSpec
  import opened VmProofs
  import opened VmRange

  // ---- an empty root ---------------------------------------------------------------------------

  // Memory large enough for the allocator, whose free frames all lie below its total.
  predicate MemoryFits(mem: Mem, pmm: Pmm) {
    (forall f :: f in pmm.free ==> f < pmm.total) && pmm.total <= |mem| <= FRAME_LIMIT
  }

  lemma {:induction false} EmptyRootTables(mem: Mem, root: nat, p: Pos)
    requires root < |mem| && mem[root] == ZeroTable()
    ensures TableAt(mem, root, p) == if p == Root then Some(root) else None
  {
    match p
    case Root =>
    case Child(q, i) =>
      EmptyRootTables(mem, root, q);
      assert Lookup(mem, root, i) == ZERO;
  }

  lemma {:induction false} PrepPml4Correct(mem: Mem, pmm: Pmm)
    requires MemoryFits(mem, pmm) && pmm.free != {}
    ensures var vm := PrepPml4(mem, pmm);
      && VmInv(vm) && (forall p :: At(vm, p) == if p == Root then Some(vm.root) else None)
      && (forall v :: Walk(vm.mem, vm.root, v) == Unmapped)
      && vm.root in pmm.free && vm.pmm.free == pmm.free - {vm.root}
      && vm.pmm.total == pmm.total && |vm.mem| == |mem|
  {
    var f0 :| f0 in pmm.free;
    var f := FirstFree(pmm.free, 0, pmm.total).value;
    assert f * FRAME_SIZE / FRAME_SIZE == f;
    var vm := PrepPml4(mem, pmm);
    forall p
      ensures TableAt(vm.mem, vm.root, p) == if p == Root then Some(vm.root) else None
    {
      EmptyRootTables(vm.mem, vm.root, p);
    }
    forall i
      ensures i >= 0 ==> Lookup(vm.mem, vm.root, i) == ZERO
    {
    }
  }

  // ---- the direct map --------------------------------------------------------------------------

  function EntryWindow(e: MemEntry): set<nat> {
    if DirectMapped(e) then Touched(e.base, e.length) else {}
  }

  // The frames of the entries the direct map covers.
  function Window(entries: seq<MemEntry>): set<nat> {
    if entries == [] then {}
    else Window(entries[..|entries| - 1]) + EntryWindow(entries[|entries| - 1])
  }

  // The frame that w names in the direct map.
  function WindowFrame(hhdm: nat, w: nat): nat {
    PagesAfter(hhdm, w)
  }

  // From a to b exactly the window addresses of the frames were mapped, each to its frame.
  ghost predicate WindowMapped(a: Vm, b: Vm, frames: set<nat>, hhdm: nat) {
    forall w :: Walk(b.mem, b.root, w) ==
      if WindowFrame(hhdm, w) in frames then Mapped(WindowFrame(hhdm, w), RW) else Walk(a.mem, a.root, w)
  }

  // Direct-mapped entries start on a page and end within 48 bits.
  predicate Placed(e: MemEntry) {
    DirectMapped(e) ==> e.base % FRAME_SIZE == 0 && e.base + e.length <= SPACE
  }

  lemma {:induction false} WindowOffset(base: nat, length: nat, hhdm: nat, w: nat)
    requires base % FRAME_SIZE == 0 && hhdm % FRAME_SIZE == 0 && base + length <= SPACE
    ensures InRange(base + hhdm, length, w) <==> WindowFrame(hhdm, w) in Touched(base, length)
    ensures InRange(base + hhdm, length, w) ==> base / FRAME_SIZE + PagesAfter(base + hhdm, w) == WindowFrame(hhdm, w)
  {
    var b, h, x := base / 4096, hhdm / 4096, w / 4096;
    assert (base + hhdm) / 4096 == b + h;
    var k, f := (x - (b + h)) % PAGE_COUNT, (x - h) % PAGE_COUNT;
    assert k == (f - b) % PAGE_COUNT;
    assert f >= b ==> k == f - b;
    assert f < b ==> k == f - b + PAGE_COUNT;
  }

  lemma {:induction false} FlagsOfRW(phys: nat)
    requires phys / 4096 < FRAME_LIMIT
    ensures PageTranslation(phys, RW) == Mapped(phys / 4096, RW)
  {
  }

  lemma {:induction false} EntryRangeMapped(a: Vm, b: Vm, e: MemEntry, hhdm: nat)
    requires Placed(e) && DirectMapped(e) && hhdm % FRAME_SIZE == 0
    requires RangeMapped(a, b, e.base + hhdm, e.base, e.length, RW, 0)
    ensures WindowMapped(a, b, Touched(e.base, e.length), hhdm)
  {
    forall w
      ensures Walk(b.mem, b.root, w) == if WindowFrame(hhdm, w) in Touched(e.base, e.length)
        then Mapped(WindowFrame(hhdm, w), RW) else Walk(a.mem, a.root, w)
    {
      WindowOffset(e.base, e.length, hhdm, w);
      if InRange(e.base + hhdm, e.length, w) {
        FlagsOfRW(e.base + 4096 * PagesAfter(e.base + hhdm, w));
      }
    }
  }

  // ---- states during vmm_init --------------------------------------------------------------------

  // A sound state without 2 MB leaves, whose tables and free frames come from the pool.
  ghost predicate Booting(vm: Vm, pool: set<nat>) {
    && VmInv(vm)
    && (forall w :: NoHugeLeafAt(vm, w))
    && vm.pmm.free <= pool
    && (forall p :: At(vm, p).Some? ==> At(vm, p).value in pool)
  }

  lemma {:induction false} BootingKept(a: Vm, b: Vm, places: set<Pos>, pool: set<nat>)
    requires Booting(a, pool) && VmInv(b) && Grew(a, b, places, {}) && ClearKept(a, b)
    ensures Booting(b, pool)
  {
    forall p | At(b, p).Some?
      ensures At(b, p).value in pool
    {
      if p in Missing(a, places) {
        assert At(b, p).value in Added(a, b, places);
      }
    }
  }

  lemma {:induction false} RangeAtBoot(vm: Vm, v: nat, phys: nat, size: nat, pool: set<nat>)
    requires Booting(vm, pool) && size <= SPACE && TableBound(Pages(size)) <= |vm.pmm.free|
    ensures var b := MapRange(vm, v, phys, size, RW, 0);
      && Booting(b, pool) && RangeMapped(vm, b, v, phys, size, RW, 0)
      && Grew(vm, b, RangePlaces(v, size, 0), {})
      && |b.pmm.free| >= |vm.pmm.free| - TableBound(Pages(size))
  {
    hide Grew, RangeMapped, ClearKept, VmInv, NoHugeLeafAt, MapRange, TableBound, RangePlaces;
    MapRangeBound(vm, v, phys, size, RW);
    BootingKept(vm, MapRange(vm, v, phys, size, RW, 0), RangePlaces(v, size, 0), pool);
  }

  function EntryCost(e: MemEntry): nat {
    if DirectMapped(e) then TableBound(Pages(e.length)) else 0
  }

  function EntriesCost(entries: seq<MemEntry>): nat {
    if entries == [] then 0 else EntriesCost(entries[..|entries| - 1]) + EntryCost(entries[|entries| - 1])
  }

  // The places of the tables of the direct map.
  function EntryPlaces(e: MemEntry, hhdm: nat): set<Pos> {
    if DirectMapped(e) then RangePlaces(e.base + hhdm, e.length, 0) else {}
  }

  function EntriesPlaces(entries: seq<MemEntry>, hhdm: nat): set<Pos> {
    if entries == [] then {}
    else EntriesPlaces(entries[..|entries| - 1], hhdm) + EntryPlaces(entries[|entries| - 1], hhdm)
  }

  lemma {:induction false} EntryAtBoot(vm: Vm, e: MemEntry, hhdm: nat, pool: set<nat>)
    requires Booting(vm, pool) && Placed(e) && hhdm % FRAME_SIZE == 0 && EntryCost(e) <= |vm.pmm.free|
    ensures var b := MapEntry(vm, e, hhdm);
      && Booting(b, pool) && WindowMapped(vm, b, EntryWindow(e), hhdm)
      && Grew(vm, b, EntryPlaces(e, hhdm), {})
      && |b.pmm.free| >= |vm.pmm.free| - EntryCost(e)
  {
    hide Booting, RangeMapped, MapRange, TableBound, Grew, RangePlaces;
    if DirectMapped(e) {
      RangeAtBoot(vm, e.base + hhdm, e.base, e.length, pool);
      EntryRangeMapped(vm, MapEntry(vm, e, hhdm), e, hhdm);
    } else {
      GrewRefl(vm);
    }
  }

  lemma {:induction false} EntriesAtBoot(vm: Vm, entries: seq<MemEntry>, hhdm: nat, pool: set<nat>)
    requires Booting(vm, pool) && hhdm % FRAME_SIZE == 0
    requires forall i :: 0 <= i < |entries| ==> Placed(entries[i])
    requires EntriesCost(entries) <= |vm.pmm.free|
    ensures var b := MapEntries(vm, entries, hhdm);
      && Booting(b, pool) && WindowMapped(vm, b, Window(entries), hhdm)
      && Grew(vm, b, EntriesPlaces(entries, hhdm), {})
      && |b.pmm.free| >= |vm.pmm.free| - EntriesCost(entries)
  {
    hide Booting, MapEntry, EntryCost, EntryWindow, Placed, EntryPlaces, Grew;
    if entries != [] {
      var front, e := entries[..|entries| - 1], entries[|entries| - 1];
      EntriesAtBoot(vm, front, hhdm, pool);
      var m := MapEntries(vm, front, hhdm);
      EntryAtBoot(m, e, hhdm, pool);
      GrewThen(vm, m, MapEntry(m, e, hhdm), EntriesPlaces(front, hhdm), EntryPlaces(e, hhdm), EntriesPlaces(entries, hhdm));
    } else {
      GrewRefl(vm);
    }
  }

  // ---- vmm_init ----------------------------------------------------------------------------------

  // Frames vmm_init needs at most: the root and the tables of each range.
  function InitCost(entries: seq<MemEntry>): nat {
    1 + TableBound(1024) + TableBound(Pages(KernelSize(entries))) + EntriesCost(entries)
  }

  // What the address space translates after vmm_init. Later ranges win over earlier ones.
  function InitTranslation(kernelVirt: nat, kernelPhys: nat, entries: seq<MemEntry>, hhdm: nat, w: nat): Translation {
    if WindowFrame(hhdm, w) in Window(entries) then Mapped(WindowFrame(hhdm, w), RW)
    else if InRange(kernelVirt, KernelSize(entries), w) then PageTranslation(kernelPhys + 4096 * PagesAfter(kernelVirt, w), RW)
    else if InRange(0, 0x400000, w) then PageTranslation(4096 * PagesAfter(0, w), RW)
    else Unmapped
  }

  lemma {:induction false} PrepAtBoot(mem: Mem, pmm: Pmm)
    requires MemoryFits(mem, pmm) && pmm.free != {}
    ensures Booting(PrepPml4(mem, pmm), pmm.free)
    ensures forall w :: Walk(PrepPml4(mem, pmm).mem, PrepPml4(mem, pmm).root, w) == Unmapped
    ensures |PrepPml4(mem, pmm).pmm.free| == |pmm.free| - 1
  {
    PrepPml4Correct(mem, pmm);
  }

  // The places of all tables below the root.
  function InitPlaces(kernelVirt: nat, entries: seq<MemEntry>, hhdm: nat): set<Pos> {
    RangePlaces(0, 0x400000, 0) + RangePlaces(kernelVirt, KernelSize(entries), 0) + EntriesPlaces(entries, hhdm)
  }

  // vmm_init builds exactly these translations, on a tree of frames the allocator gave it, with
  // tables only where the ranges need them.
  lemma {:induction false} InitCorrect(mem: Mem, pmm: Pmm, kernelVirt: nat, kernelPhys: nat, entries: seq<MemEntry>, hhdm: nat)
    requires MemoryFits(mem, pmm) && InitCost(entries) <= |pmm.free|
    requires forall i :: 0 <= i < |entries| ==> Placed(entries[i])
    requires hhdm % FRAME_SIZE == 0 && KernelSize(entries) <= SPACE
    ensures var vm := Init(mem, pmm, kernelVirt, kernelPhys, entries, hhdm);
      && Booting(vm, pmm.free) && |vm.pmm.free| >= |pmm.free| - InitCost(entries)
      && Grew(PrepPml4(mem, pmm), vm, InitPlaces(kernelVirt, entries, hhdm), {})
      && forall w :: Walk(vm.mem, vm.root, w) == InitTranslation(kernelVirt, kernelPhys, entries, hhdm, w)
  {
    hide Booting, TableBound, MapRange, MapEntries, EntriesCost, Window, WindowFrame, PrepPml4, InRange, PagesAfter, Grew,
         RangePlaces, EntriesPlaces;
    assert pmm.free != {};
    PrepAtBoot(mem, pmm);
    var vm0 := PrepPml4(mem, pmm);
    assert Pages(0x400000) == 1024;
    RangeAtBoot(vm0, 0, 0, 0x400000, pmm.free);
    var vm1 := MapRange(vm0, 0, 0, 0x400000, RW, 0);
    RangeAtBoot(vm1, kernelVirt, kernelPhys, KernelSize(entries), pmm.free);
    var vm2 := MapRange(vm1, kernelVirt, kernelPhys, KernelSize(entries), RW, 0);
    EntriesAtBoot(vm2, entries, hhdm, pmm.free);
    var s1, s2 := RangePlaces(0, 0x400000, 0), RangePlaces(kernelVirt, KernelSize(entries), 0);
    GrewThen(vm0, vm1, vm2, s1, s2, s1 + s2);
    GrewThen(vm0, vm2, MapEntries(vm2, entries, hhdm), s1 + s2, EntriesPlaces(entries, hhdm), InitPlaces(kernelVirt, entries, hhdm));
  }

  lemma {:induction false} InitWalks(mem: Mem, pmm: Pmm, kernelVirt: nat, kernelPhys: nat, entries: seq<MemEntry>, hhdm: nat)
    requires MemoryFits(mem, pmm) && InitCost(entries) <= |pmm.free|
    requires forall i :: 0 <= i < |entries| ==> Placed(entries[i])
    requires hhdm % FRAME_SIZE == 0 && KernelSize(entries) <= SPACE
    ensures var vm := Init(mem, pmm, kernelVirt, kernelPhys, entries, hhdm);
      forall w :: Walk(vm.mem, vm.root, w) == InitTranslation(kernelVirt, kernelPhys, entries, hhdm, w)
  {
    hide *;
    InitCorrect(mem, pmm, kernelVirt, kernelPhys, entries, hhdm);
  }

  // ---- what that means for each range --------------------------------------------------------------

  // The pages of the two ranges are disjoint in the 48-bit address space.
  predicate Apart(v: nat, size: nat, w: nat, size': nat) {
    PagesAfter(v, w) >= Pages(size) && PagesAfter(w, v) >= Pages(size')
  }

  lemma {:induction false} ApartRanges(v: nat, size: nat, w: nat, size': nat, x: nat)
    requires Apart(v, size, w, size') && InRange(v, size, x)
    ensures !InRange(w, size', x)
  {
    var a, b, c := v / 4096, w / 4096, x / 4096;
    var k, d := (c - a) % PAGE_COUNT, (b - a) % PAGE_COUNT;
    assert k < Pages(size) <= d;
    assert (a - b) % PAGE_COUNT == PAGE_COUNT - d;
    assert (c - b) % PAGE_COUNT == k - d + PAGE_COUNT;
  }

  // No direct-mapped entry meets the range.
  predicate OffWindow(entries: seq<MemEntry>, hhdm: nat, v: nat, size: nat) {
    forall i :: 0 <= i < |entries| && DirectMapped(entries[i]) ==>
      Apart(entries[i].base + hhdm, entries[i].length, v, size)
  }

  lemma {:induction false} OffWindowFrames(entries: seq<MemEntry>, hhdm: nat, v: nat, size: nat, x: nat)
    requires forall i :: 0 <= i < |entries| ==> Placed(entries[i])
    requires hhdm % FRAME_SIZE == 0 && OffWindow(entries, hhdm, v, size) && InRange(v, size, x)
    ensures WindowFrame(hhdm, x) !in Window(entries)
  {
    if entries != [] {
      var front, e := entries[..|entries| - 1], entries[|entries| - 1];
      OffWindowFrames(front, hhdm, v, size, x);
      if DirectMapped(e) {
        WindowOffset(e.base, e.length, hhdm, x);
        if InRange(e.base + hhdm, e.length, x) {
          ApartRanges(e.base + hhdm, e.length, v, size, x);
        }
      }
    }
  }

  lemma {:induction false} WindowMember(entries: seq<MemEntry>, f: nat)
    ensures f in Window(entries) <==>
      exists i :: 0 <= i < |entries| && DirectMapped(entries[i]) && f in Touched(entries[i].base, entries[i].length)
  {
    if entries != [] {
      var front, e := entries[..|entries| - 1], entries[|entries| - 1];
      WindowMember(front, f);
      assert entries == front + [e];
      assert forall i :: 0 <= i < |front| ==> front[i] == entries[i];
    }
  }

  lemma {:induction false} WindowAddress(hhdm: nat, p: nat)
    requires hhdm % FRAME_SIZE == 0 && p < SPACE
    ensures WindowFrame(hhdm, p + hhdm) == p / 4096
  {
    assert (p + hhdm) / 4096 == p / 4096 + hhdm / 4096;
  }

  // Every address of a usable, reclaimable or framebuffer entry is found at its direct-map
  // address, whatever else was mapped.
  lemma {:induction false} DirectMap(mem: Mem, pmm: Pmm, kernelVirt: nat, kernelPhys: nat, entries: seq<MemEntry>, hhdm: nat,
                                     i: nat, p: nat)
    requires MemoryFits(mem, pmm) && InitCost(entries) <= |pmm.free|
    requires forall i :: 0 <= i < |entries| ==> Placed(entries[i])
    requires hhdm % FRAME_SIZE == 0 && KernelSize(entries) <= SPACE
    requires i < |entries| && entries[i].base <= p < entries[i].base + entries[i].length
    requires entries[i].kind == Usable || entries[i].kind == BootloaderReclaimable || entries[i].kind == Framebuffer
    ensures var vm := Init(mem, pmm, kernelVirt, kernelPhys, entries, hhdm);
      Walk(vm.mem, vm.root, p + hhdm) == Mapped(p / 4096, Flags(3, 0))
  {
    hide MemoryFits, InitCost, Init, Walk, Window;
    InitWalks(mem, pmm, kernelVirt, kernelPhys, entries, hhdm);
    assert Placed(entries[i]);
    WindowAddress(hhdm, p);
    EntryTouches(entries[i], p);
    WindowMember(entries, p / 4096);
  }

  // The page of p meets an entry of one of those three kinds.
  predicate InDirectMap(entries: seq<MemEntry>, p: nat) {
    exists i :: 0 <= i < |entries|
      && (entries[i].kind == Usable || entries[i].kind == BootloaderReclaimable || entries[i].kind == Framebuffer)
      && entries[i].base <= p / 4096 * 4096 < entries[i].base + entries[i].length
  }

  // An address in none of them, nor in the kernel image or the first 4 MB, is not mapped.
  lemma {:induction false} NothingElse(mem: Mem, pmm: Pmm, kernelVirt: nat, kernelPhys: nat, entries: seq<MemEntry>, hhdm: nat, p: nat)
    requires MemoryFits(mem, pmm) && InitCost(entries) <= |pmm.free|
    requires forall i :: 0 <= i < |entries| ==> Placed(entries[i])
    requires hhdm % FRAME_SIZE == 0 && KernelSize(entries) <= SPACE
    requires p < 0x1_0000_0000_0000 && !InDirectMap(entries, p)
    requires (p + hhdm) / 4096 % 0x10_0000_0000 >= 1024
    requires ((p + hhdm) / 4096 - kernelVirt / 4096) % 0x10_0000_0000 * 4096 >= KernelSize(entries)
    ensures var vm := Init(mem, pmm, kernelVirt, kernelPhys, entries, hhdm);
      Walk(vm.mem, vm.root, p + hhdm) == Unmapped
  {
    hide MemoryFits, InitCost, Init, Walk, Window, Placed;
    InitWalks(mem, pmm, kernelVirt, kernelPhys, entries, hhdm);
    WindowAddress(hhdm, p);
    if p / 4096 in Window(entries) {
      WindowMember(entries, p / 4096);
      var i :| 0 <= i < |entries| && DirectMapped(entries[i]) && p / 4096 in Touched(entries[i].base, entries[i].length);
      TouchedPage(entries[i], p);
    }
  }

  lemma {:induction false} TouchedPage(e: MemEntry, p: nat)
    requires Placed(e) && DirectMapped(e) && p / 4096 in Touched(e.base, e.length)
    ensures e.base <= p / 4096 * 4096 < e.base + e.length
  {
    assert e.base == 4096 * (e.base / 4096);
    assert 4096 * (p / 4096 - e.base / 4096) < e.length;
  }

  predicate LastKernel(entries: seq<MemEntry>, i: nat) {
    forall j :: i < j < |entries| ==> entries[j].kind != KernelAndModules
  }

  // The kernel's size is the length of the last entry of its kind.
  lemma {:induction false} KernelSizeIs(entries: seq<MemEntry>)
    ensures (forall i :: 0 <= i < |entries| ==> entries[i].kind != KernelAndModules) ==> KernelSize(entries) == 0
    ensures forall i :: 0 <= i < |entries| && entries[i].kind == KernelAndModules && LastKernel(entries, i) ==>
      KernelSize(entries) == entries[i].length
  {
    if entries != [] {
      var front := entries[..|entries| - 1];
      KernelSizeIs(front);
      assert forall i :: 0 <= i < |front| ==> front[i] == entries[i];
    }
  }

  lemma {:induction false} EntryTouches(e: MemEntry, p: nat)
    requires e.base % FRAME_SIZE == 0 && e.base <= p < e.base + e.length
    ensures p / 4096 in Touched(e.base, e.length)
  {
    assert p / 4096 - e.base / 4096 == (p - e.base) / 4096;
  }

  // The kernel image and, where the kernel does not overlap it, the first 4 MB, translate as
  // intended when they lie off the direct map.
  lemma {:induction false} KernelAndIdentity(mem: Mem, pmm: Pmm, kernelVirt: nat, kernelPhys: nat, entries: seq<MemEntry>,
                                             hhdm: nat, o: nat)
    requires MemoryFits(mem, pmm) && InitCost(entries) <= |pmm.free|
    requires forall i :: 0 <= i < |entries| ==> Placed(entries[i])
    requires hhdm % FRAME_SIZE == 0 && KernelSize(entries) <= SPACE
    requires kernelVirt % FRAME_SIZE == 0 && kernelPhys % FRAME_SIZE == 0 && kernelPhys + KernelSize(entries) <= SPACE
    requires OffWindow(entries, hhdm, kernelVirt, KernelSize(entries)) && OffWindow(entries, hhdm, 0, 0x400000)
    requires Apart(kernelVirt, KernelSize(entries), 0, 0x400000)
    ensures var vm := Init(mem, pmm, kernelVirt, kernelPhys, entries, hhdm);
      && (o < KernelSize(entries) ==> Walk(vm.mem, vm.root, kernelVirt + o) == Mapped((kernelPhys + o) / 4096, Flags(3, 0)))
      && (o < 0x400000 ==> Walk(vm.mem, vm.root, o) == Mapped(o / 4096, Flags(3, 0)))
  {
    hide MemoryFits, InitCost, Init, Walk, Window, OffWindow, PagesAfter, Apart;
    InitWalks(mem, pmm, kernelVirt, kernelPhys, entries, hhdm);
    if o < KernelSize(entries) {
      RangeAddress(kernelVirt, o);
      OffWindowFrames(entries, hhdm, kernelVirt, KernelSize(entries), kernelVirt + o);
      FlagsOfRW(kernelPhys + 4096 * (o / 4096));
    }
    if o < 0x400000 {
      RangeAddress(0, o);
      OffWindowFrames(entries, hhdm, 0, 0x400000, o);
      if InRange(kernelVirt, KernelSize(entries), o) {
        ApartRanges(kernelVirt, KernelSize(entries), 0, 0x400000, o);
      }
      FlagsOfRW(4096 * (o / 4096));
    }
  }

  lemma {:induction false} RangeAddress(v: nat, o: nat)
    requires v % FRAME_SIZE == 0 && o < SPACE
    ensures PagesAfter(v, v + o) == o / 4096
  {
    assert (v + o) / 4096 == v / 4096 + o / 4096;
  }

  // The addresses frame * 4096 + o + hhdm, o < 4096, lead to the frame (see WindowAddress).
  ghost predicate Reachable(vm: Vm, hhdm: nat, frame: nat) {
    forall w :: WindowFrame(hhdm, w) == frame ==> Walk(vm.mem, vm.root, w) == Mapped(frame, RW)
  }

  lemma {:induction false} ManagedInWindow(entries: seq<MemEntry>)
    ensures Covered(entries) <= Window(entries)
  {
    if entries != [] {
      ManagedInWindow(entries[..|entries| - 1]);
    }
  }

  // Every page table vmm_init built, and every frame still free, is reachable through the
  // direct map of the new tables: later table accesses go where they are meant to.
  lemma {:induction false} TablesReachable(mem: Mem, pmm: Pmm, kernelVirt: nat, kernelPhys: nat, entries: seq<MemEntry>,
                                           hhdm: nat, frame: nat)
    requires MemoryFits(mem, pmm) && InitCost(entries) <= |pmm.free| && pmm.free <= Covered(entries)
    requires forall i :: 0 <= i < |entries| ==> Placed(entries[i])
    requires hhdm % FRAME_SIZE == 0 && KernelSize(entries) <= SPACE
    ensures var vm := Init(mem, pmm, kernelVirt, kernelPhys, entries, hhdm);
      IsTable(vm.mem, vm.root, frame) || frame in vm.pmm.free ==> Reachable(vm, hhdm, frame)
  {
    hide MemoryFits, InitCost, Init, Walk, Window, Covered, IsTree;
    InitCorrect(mem, pmm, kernelVirt, kernelPhys, entries, hhdm);
    ManagedInWindow(entries);
    var vm := Init(mem, pmm, kernelVirt, kernelPhys, entries, hhdm);
    if IsTable(vm.mem, vm.root, frame) || frame in vm.pmm.free {
      assert frame in pmm.free by {
        if frame !in vm.pmm.free {
          var p :| TableAt(vm.mem, vm.root, p) == Some(frame);
          assert At(vm, p).Some?;
        }
      }
    }
  }
}
