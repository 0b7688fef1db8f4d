/** What the processor can reach after boot, and how. */
module BootAccess {
  import opened Wrappers
  import opened PmmSpec
  import opened MemoryMap
  import opened Paging
  import opened PageTree
  import opened VmSpec
  import opened VmProofs
  import opened VmRange
  import opened VmInit
  import opened HeapProofs
  import opened KernelApi
  import opened HeapCycles
  import opened Boot
  import opened BootFrames
  import opened Mmu

  // The page of the kernel API.
  predicate OnApi(w: nat) {
    w / 4096 % 0x10_0000_0000 == 0x1_0000
  }

  lemma {:induction false} ApiPages(w: nat)
    ensures PagesAfter(KERNEL_API_ADDRESS, w) == 0 <==> OnApi(w)
  {
  }

  lemma {:induction false} BootSound(vm: Vm, pool: set<nat>)
    requires Booting(vm, pool)
    ensures VmInv(vm)
  {
  }

  // Every translation after boot, as the processor sees it.
  lemma {:induction false} BootTranslate(mem: Mem, pmm: Pmm, h: Handover, w: nat)
    requires CanInit(mem, pmm, h) && PmmOk(pmm) && OffHeap(pmm, h) && ApiSpared(pmm, h)
    ensures Translate(BootVm(mem, pmm, h), w) == if OnApi(w) then Access(0x1000_0000 + w % 4096, true, true)
      else AsAccess(Walk(InitVm(mem, pmm, h).mem, InitVm(mem, pmm, h).root, w), w)
  {
    hide CanInit, OffHeap, ApiSpared, BootVm, InitVm, Booting, Idle, InitTranslation, Walk, Translate, PagesAfter, PmmOk;
    BootCorrect(mem, pmm, h);
    BootSound(BootVm(mem, pmm, h), pmm.free);
    TranslateIsWalk(BootVm(mem, pmm, h), w);
    ApiPages(w);
    InitIs(mem, pmm, h, w);
  }

  lemma {:induction false} InitIs(mem: Mem, pmm: Pmm, h: Handover, w: nat)
    requires CanInit(mem, pmm, h)
    ensures Walk(InitVm(mem, pmm, h).mem, InitVm(mem, pmm, h).root, w)
         == InitTranslation(h.kernelVirt, h.kernelPhys, h.entries, h.hhdm, w)
  {
    hide Walk, Init, InitTranslation, MemoryFits, Placed, TableBound, EntriesCost;
    InitWalks(mem, pmm, h.kernelVirt, h.kernelPhys, h.entries, h.hhdm);
  }

  lemma {:induction false} CanInitIs(mem: Mem, pmm: Pmm, h: Handover)
    requires CanInit(mem, pmm, h)
    ensures MemoryFits(mem, pmm) && InitCost(h.entries) <= |pmm.free|
    ensures forall i :: 0 <= i < |h.entries| ==> Placed(h.entries[i])
    ensures h.hhdm % FRAME_SIZE == 0 && KernelSize(h.entries) <= SPACE
  {
    hide MemoryFits, Placed, TableBound, EntriesCost;
  }

  // An address of a usable, reclaimable or framebuffer entry is at its offset in the direct map, to be
  // read, written and executed.
  lemma {:induction false} DirectMapAccess(mem: Mem, pmm: Pmm, h: Handover, i: nat, p: nat)
    requires CanInit(mem, pmm, h) && PmmOk(pmm) && OffHeap(pmm, h) && ApiSpared(pmm, h)
    requires i < |h.entries| && h.entries[i].base <= p < h.entries[i].base + h.entries[i].length && !OnApi(p + h.hhdm)
    requires h.entries[i].kind == Usable || h.entries[i].kind == BootloaderReclaimable || h.entries[i].kind == Framebuffer
    ensures Translate(BootVm(mem, pmm, h), p + h.hhdm) == Access(p, true, true)
  {
    hide CanInit, OffHeap, ApiSpared, BootVm, Walk, Translate, MemoryFits, InitCost, Init, OnApi, PmmOk;
    CanInitIs(mem, pmm, h);
    BootTranslate(mem, pmm, h, p + h.hhdm);
    DirectMap(mem, pmm, h.kernelVirt, h.kernelPhys, h.entries, h.hhdm, i, p);
    SameOffset(p, h.hhdm);
  }

  lemma {:induction false} SameOffset(p: nat, hhdm: nat)
    requires hhdm % 4096 == 0
    ensures 4096 * (p / 4096) + (p + hhdm) % 4096 == p
  {
  }

  // An address of the direct map in no such entry, nor in the kernel image, the first 4 MB or the page of
  // the API, cannot be accessed.
  lemma {:induction false} NoOtherAccess(mem: Mem, pmm: Pmm, h: Handover, p: nat)
    requires CanInit(mem, pmm, h) && PmmOk(pmm) && OffHeap(pmm, h) && ApiSpared(pmm, h)
    requires p < 0x1_0000_0000_0000 && !InDirectMap(h.entries, p) && !OnApi(p + h.hhdm)
    requires (p + h.hhdm) / 4096 % 0x10_0000_0000 >= 1024
    requires ((p + h.hhdm) / 4096 - h.kernelVirt / 4096) % 0x10_0000_0000 * 4096 >= KernelSize(h.entries)
    ensures Translate(BootVm(mem, pmm, h), p + h.hhdm) == Fault
  {
    hide CanInit, OffHeap, ApiSpared, BootVm, Walk, Translate, MemoryFits, InitCost, Init, OnApi, PmmOk, InDirectMap;
    CanInitIs(mem, pmm, h);
    BootTranslate(mem, pmm, h, p + h.hhdm);
    NothingElse(mem, pmm, h.kernelVirt, h.kernelPhys, h.entries, h.hhdm, p);
  }
}
