/** The API struct from boot to the start of each workload. */
module ApiContents {
  import opened Bytes
  import opened Numbers
  import opened Wrappers
  import opened PmmSpec
  import opened MemoryMap
  import opened Paging
  import opened PageTree
  import opened VmSpec
  import opened VmProofs
  import opened VmInit
  import opened HeapSpec
  import opened HeapProofs
  import opened HeapRuns
  import opened Words
  import opened VirtualMemory
  import opened KernelApi
  import opened FirstFit
  import opened Spared
  import opened HeapCycles
  import opened Boot
  import opened BootFrames
  import opened MachineFacts
  import opened ApiRuns
  import opened ApiStruct
  import opened PollTurn
  import opened PayloadMemory
  import Kernel
  import opened KernelRuns

  // ---- the kernel's own stores -----------------------------------------------------------------------

  // b is a with these bytes at an offset of the page, and the rest of the page as it was.
  ghost predicate Patch(a: Vm, b: Vm, offset: nat, bytes: seq<byte>) {
    && |b.mem| == |a.mem|
    && forall o :: 0 <= o < 4096 ==> ApiByte(b, o) == if offset <= o < offset + |bytes| then bytes[o - offset] else ApiByte(a, o)
  }

  lemma {:induction false} PageStored(a: Vm, next: nat, offset: nat, bytes: seq<byte>)
    requires Idle(a) && API_FRAME < |a.mem| && offset + |bytes| <= 4096
    ensures var b := RunActions(a, next, Stores(0x1000_0000 + offset, bytes)).0; Idle(b) && Patch(a, b, offset, bytes)
    decreases |bytes|
  {
    hide Idle, OnApiPage, StoreByte, ApiByte;
    if bytes != [] {
      var actions := Stores(0x1000_0000 + offset, bytes);
      assert actions[0] == Write(0x1000_0000 + offset, bytes[0]);
      assert actions[1..] == Stores(0x1000_0000 + (offset + 1), bytes[1..]);
      ApiAddress(offset);
      IdleStored(a, 0x1000_0000 + offset, bytes[0]);
      var b := StoreByte(a, 0x1000_0000 + offset, bytes[0]);
      ByteStored(a, offset, bytes[0]);
      PageStored(b, next, offset + 1, bytes[1..]);
    }
  }

  lemma {:induction false} ByteStored(a: Vm, offset: nat, b: byte)
    requires Idle(a) && API_FRAME < |a.mem| && offset < 4096
    ensures Patch(a, StoreByte(a, 0x1000_0000 + offset, b), offset, [b])
  {
    hide HeapInvFrom, Walk, IsTable, OnApiPage, ByteAt, PutByte;
    ApiAddress(offset);
    PutShape(a.mem, API_FRAME, offset, b);
    var v := KERNEL_API_ADDRESS + offset;
    assert v == 0x1000_0000 + offset && Walk(a.mem, a.root, v) == Mapped(API_FRAME, RW);
    var c := StoreByte(a, v, b);
    assert c.mem == PutByte(a.mem, API_FRAME, offset, b);
    forall o | 0 <= o < 4096
      ensures ApiByte(c, o) == if o == offset then b else ApiByte(a, o)
    {
      PutThenGet(a.mem, API_FRAME, offset, b, API_FRAME, o);
    }
    assert [b][0] == b && |[b]| == 1;
  }

  // ---- at boot -----------------------------------------------------------------------------------------

  // The struct is where the kernel put it.
  lemma {:induction false} BootBytes(mem: Mem, pmm: PmmSpec.Pmm, h: Handover)
    requires CanInit(mem, pmm, h) && PmmOk(pmm) && OffHeap(pmm, h) && ApiSpared(pmm, h) && API_FRAME < |mem|
    ensures |h.api| == 128 && |BootVm(mem, pmm, h).mem| == |mem|
    ensures forall o :: 0 <= o < 128 ==> ApiByte(BootVm(mem, pmm, h), o) == h.api[o]
  {
    hide CanInit, OffHeap, ApiSpared, MappedVm, Idle, ApiByte, RunActions, Stores, HeapInvFrom, Booting, Grew, InitTranslation,
         PrepPml4, BootPlaces, Walk;
    MappedApi(mem, pmm, h);
    MappedCorrect(mem, pmm, h);
    StructBytes(mem, pmm, h);
    PageStored(MappedVm(mem, pmm, h), HEAP_START, 0, h.api);
    assert 0x1000_0000 + 0 == KERNEL_API_ADDRESS;
  }

  lemma {:induction false} StructBytes(mem: Mem, pmm: PmmSpec.Pmm, h: Handover)
    requires CanInit(mem, pmm, h)
    ensures |h.api| == 128
  {
  }

  // ---- cycles ------------------------------------------------------------------------------------------

  lemma {:induction false} StoresLeave(offset: nat, bytes: seq<byte>, low: nat)
    requires low <= offset && offset + |bytes| <= 4096
    ensures Leaves(Stores(0x1000_0000 + offset, bytes), low)
    decreases |bytes|
  {
    if bytes != [] {
      StoresLeave(offset + 1, bytes[1..], low);
      var actions := Stores(0x1000_0000 + offset, bytes);
      assert actions[1..] == Stores(0x1000_0000 + (offset + 1), bytes[1..]);
      assert forall i :: 0 < i < |actions| ==> actions[i] == actions[1..][i - 1];
      ApiAddress(offset);
    }
  }

  lemma {:induction false} LeavesBoth(a: seq<Action>, b: seq<Action>, low: nat)
    requires Leaves(a, low) && Leaves(b, low)
    ensures Leaves(a + b, low)
  {
  }

  lemma {:induction false} PollLeaves()
    ensures Leaves(PollStores(), 112)
  {
    StoresLeave(112, seq(16, i => 0 as byte), 112);
  }

  // The reset does not touch the page.
  lemma {:induction false} ResetKeeps(m: Vm, end: Vm, x: set<nat>)
    requires Gave(m, end, x) && ApiOwned(m)
    ensures SameBelow(m, end, 4096)
  {
    hide ByteOf, OnApiPage, Walk;
  }

  // A whole cycle leaves what comes before the output fields alone, if its workload does.
  lemma {:induction false} CycleKeeps(start: Vm, actions: seq<Action>, n: nat)
    requires Ready(start, n) && InHeap(0, actions) && Total(actions) <= n && Leaves(actions, 112)
    ensures SameBelow(start, Cycle(start, actions), 112)
  {
    hide *;
    ReadyFewer(start, Total(actions), n);
    ReadyIs(start, Total(actions));
    GrownStart(start);
    HeapStart();
    PollStoresFirst(actions);
    PollLeaves();
    LeavesBoth(PollStores(), actions, 112);
    ActionsKeep(start, start, [], PollStores() + actions, 112);
    var m := RunActions(start, HEAP_START, PollStores() + actions).0;
    var blocks := GrownAt(start, actions);
    CycleEnds(start, m, actions, blocks);
    GrownInv(start, m, blocks);
    GrownApi(start, m, blocks);
    ResetHeapCorrect(m, blocks);
    ResetKeeps(m, ResetHeap(m, HeapAddr(|blocks|)), BlockUnion(blocks));
    FewerBelow(m, ResetHeap(m, HeapAddr(|blocks|)), 4096, 112);
    SameBelowTrans(start, m, Cycle(start, actions), 112);
  }

  lemma {:induction false} FewerBelow(a: Vm, b: Vm, low: nat, low': nat)
    requires low' <= low <= 4096 && SameBelow(a, b, low)
    ensures SameBelow(a, b, low')
  {
    hide ApiByte;
  }

  lemma {:induction false} RunCyclesKeep(start: Vm, cycles: seq<seq<Action>>, n: nat)
    requires Ready(start, n) && AllInHeap(cycles) && Peak(cycles) <= n
    requires forall i :: 0 <= i < |cycles| ==> Leaves(cycles[i], 112)
    ensures SameBelow(start, RunCycles(start, cycles), 112)
    decreases |cycles|
  {
    hide Ready, InHeap, Leaves, SameBelow, Cycle, GrewButApi, SameWalks, HeapPlaces;
    if cycles == [] {
      SameBelowRefl(start, 112);
    } else {
      var m, rest := Cycle(start, cycles[0]), cycles[1..];
      CycleKeeps(start, cycles[0], n);
      CycleCorrect(start, cycles[0], n);
      RunCyclesKeep(m, rest, n);
      SameBelowTrans(start, m, RunCycles(m, rest), 112);
    }
  }

  // ---- when a workload starts ----------------------------------------------------------------------------

  lemma {:induction false} HeapStoresLeave(size: nat, k: nat, payload: seq<byte>)
    requires k + |payload| <= size && NumPages(size) <= 0x200_0000
    ensures Leaves(Stores(HEAP_START + k, payload), 4096)
    decreases |payload|
  {
    hide NumPages, OnApiPage;
    if payload != [] {
      HeapStoresLeave(size, k + 1, payload[1..]);
      var actions := Stores(HEAP_START + k, payload);
      assert actions[1..] == Stores(HEAP_START + (k + 1), payload[1..]);
      assert forall i :: 0 < i < |actions| ==> actions[i] == actions[1..][i - 1];
      PayloadPages(size, k);
      OnPageIs(HEAP_START + k);
      if OnApiPage(HEAP_START + k) {
        ApiOffHeap(HEAP_START + k);
      }
    }
  }

  // The download, after the output fields are cleared, does not touch the page.
  lemma {:induction false} DownloadApi(vm: Vm, payload: seq<byte>)
    requires Ready(vm, NumPages(|payload|)) && API_FRAME < |vm.mem|
    ensures var m := AfterDownload(vm, payload).0;
      && ApiOwned(m) && |m.mem| == |vm.mem|
      && forall o :: 0 <= o < 128 ==> ApiByte(m, o) == if o < 112 then ApiByte(vm, o) else 0
  {
    hide *;
    var pages := NumPages(|payload|);
    var own := [Grow(pages, RW)] + Stores(HEAP_START, payload);
    ReadyIs(vm, pages);
    var a := RunActions(vm, HEAP_START, PollStores()).0;
    PollStored(vm);
    PollBytes(vm);
    SameTablesFor(vm, a, pages);
    IdleHeap(vm);
    PollGrown(vm, pages);
    var blocks := PayloadInMemory(vm, pages, payload);
    var m := AfterDownload(vm, payload).0;
    AfterIs(vm, payload);
    GrownApi(vm, m, blocks);
    GrownInv(vm, m, blocks);
    CapPages(m, blocks);
    OwnInHeap(payload, pages);
    HeapStart();
    ActionsKeep(vm, a, [], own, 4096);
    AfterSplit(vm, payload, a);
    BytesOf(vm, a, m);
  }

  lemma {:induction false} CapPages(m: Vm, blocks: seq<nat>)
    requires HeapInv(m, blocks)
    ensures |blocks| <= 0x200_0000
  {
    CapSmall(m);
  }

  lemma {:induction false} PollBytes(vm: Vm)
    requires Idle(vm) && API_FRAME < |vm.mem|
    ensures Patch(vm, RunActions(vm, HEAP_START, PollStores()).0, 112, seq(16, i => 0 as byte))
  {
    hide Idle, RunActions, Stores, Patch;
    PageStored(vm, HEAP_START, 112, seq(16, i => 0 as byte));
  }

  // Clearing the fields grows nothing.
  lemma {:induction false} PollGrown(vm: Vm, pages: nat)
    requires Ready(vm, pages)
    ensures Grown(vm, RunActions(vm, HEAP_START, PollStores()).0, [])
  {
    hide *;
    ReadyFewer(vm, 0, pages);
    NoActions();
    var blocks := GrownAt(vm, []);
    assert PollStores() + [] == PollStores();
  }

  lemma {:induction false} OwnInHeap(payload: seq<byte>, pages: nat)
    requires pages == NumPages(|payload|) <= 0x200_0000
    ensures var own := [Grow(pages, RW)] + Stores(HEAP_START, payload);
      InHeap(0, own) && Total(own) == pages && Leaves(own, 4096)
  {
    hide NumPages, HeapIndex;
    assert CycleActions(payload, []) == [Grow(pages, RW)] + Stores(HEAP_START, payload);
    CycleInHeap(payload, []);
    HeapStoresLeave(|payload|, 0, payload);
    assert HEAP_START + 0 == HEAP_START;
    LeavesBoth([Grow(pages, RW)], Stores(HEAP_START, payload), 4096);
  }

  lemma {:induction false} AfterSplit(vm: Vm, payload: seq<byte>, a: Vm)
    requires a == RunActions(vm, HEAP_START, PollStores()).0 && RunActions(vm, HEAP_START, PollStores()).1 == HEAP_START
    ensures AfterDownload(vm, payload).0 == RunActions(a, HEAP_START, [Grow(NumPages(|payload|), RW)] + Stores(HEAP_START, payload)).0
  {
    hide RunActions, PollStores, Stores, NumPages;
    RunActionsJoin(vm, HEAP_START, PollStores(), [Grow(NumPages(|payload|), RW)] + Stores(HEAP_START, payload));
  }

  lemma {:induction false} BytesOf(vm: Vm, a: Vm, m: Vm)
    requires Patch(vm, a, 112, seq(16, i => 0 as byte)) && SameBelow(a, m, 4096)
    ensures |m.mem| == |vm.mem| && forall o :: 0 <= o < 128 ==> ApiByte(m, o) == if o < 112 then ApiByte(vm, o) else 0
  {
    hide ApiByte;
  }

  lemma {:induction false} LoadsApi(m: Vm, o: nat)
    requires ApiOwned(m) && o < 4096
    ensures LoadByte(m, 0x1000_0000 + o) == Some(ApiByte(m, o))
  {
    hide Walk, ByteAt, IsTable, OnApiPage;
    ApiAddress(o);
  }

  // When the k-th workload starts it finds the struct at 0x10000000: the fields up to output_buffer as
  // the kernel stored them at boot, output_buffer and output_size zero, as long as the workloads before
  // it stored nothing in the fields before output_buffer.
  lemma {:induction false} WorkloadFindsApi(mem: Mem, pmm: PmmSpec.Pmm, h: Handover, inputs: seq<Kernel.Input>,
                                            payloads: seq<seq<byte>>, n: nat, k: nat)
    requires Fitting(mem, pmm, h, inputs, payloads, n) && k < |payloads| && API_FRAME < |mem|
    requires |payloads| <= |inputs| && forall i :: 0 <= i < k ==> Leaves(inputs[i].workload, 112)
    ensures |h.api| == 128
    ensures var m := AfterDownload(RunCycles(BootVm(mem, pmm, h), Kernel.CyclesOf(inputs, payloads[..k])), payloads[k]).0;
      forall o :: 0 <= o < 128 ==> LoadByte(m, 0x1000_0000 + o) == Some(if o < 112 then h.api[o] else 0)
  {
    hide *;
    FittingIs(mem, pmm, h, inputs, payloads, n);
    BootBytes(mem, pmm, h);
    FirstModest(inputs, payloads, n, k);
    ModestCycles(inputs, payloads[..k], n);
    var start, cycles := BootVm(mem, pmm, h), Kernel.CyclesOf(inputs, payloads[..k]);
    PayloadsSmall(start, inputs, payloads[..k], n);
    CyclesLeave(inputs, payloads[..k]);
    RunCyclesKeep(start, cycles, n);
    RunCyclesCorrect(start, cycles, n);
    ReadyFewer(RunCycles(start, cycles), NumPages(|payloads[k]|), n);
    SameLengths(start, RunCycles(start, cycles));
    DownloadApi(RunCycles(start, cycles), payloads[k]);
    var m := AfterDownload(RunCycles(start, cycles), payloads[k]).0;
    forall o | 0 <= o < 128
      ensures LoadByte(m, 0x1000_0000 + o) == Some(if o < 112 then h.api[o] else 0)
    {
      LoadsApi(m, o);
      FirstBytes(start, RunCycles(start, cycles), o);
    }
  }

  lemma {:induction false} SameLengths(a: Vm, b: Vm)
    requires SameBelow(a, b, 112)
    ensures |b.mem| == |a.mem|
  {
  }

  lemma {:induction false} FirstBytes(a: Vm, b: Vm, o: nat)
    requires SameBelow(a, b, 112) && o < 128
    ensures o < 112 ==> ApiByte(b, o) == ApiByte(a, o)
  {
    hide ApiByte;
  }

  // No payload is larger than the heap can be.
  lemma {:induction false} PayloadsSmall(start: Vm, inputs: seq<Kernel.Input>, payloads: seq<seq<byte>>, n: nat)
    requires Ready(start, n) && |payloads| <= |inputs| && Modest(inputs, payloads, n)
    ensures forall i :: 0 <= i < |payloads| ==> NumPages(|payloads[i]|) <= 0x200_0000
  {
    hide InHeap, NumPages, Total;
    HeapSmall(start, n);
  }

  lemma {:induction false} HeapSmall(start: Vm, n: nat)
    requires Ready(start, n)
    ensures n <= 0x200_0000
  {
    hide *;
    ReadyIs(start, n);
    HeapBelowCap(start, []);
    RoomEnough(start, n);
    CapPages2(start);
  }

  lemma {:induction false} RoomEnough(start: Vm, n: nat)
    requires Room(start, 0, n)
    ensures n <= |Whole(start)|
  {
  }

  lemma {:induction false} CapPages2(start: Vm)
    requires HeapInv(start, [])
    ensures Cap(start) <= 0x200_0000
  {
    CapSmall(start);
  }

  lemma {:induction false} CyclesLeave(inputs: seq<Kernel.Input>, payloads: seq<seq<byte>>)
    requires |payloads| <= |inputs| && forall i :: 0 <= i < |payloads| ==> Leaves(inputs[i].workload, 112)
    requires forall i :: 0 <= i < |payloads| ==> NumPages(|payloads[i]|) <= 0x200_0000
    ensures var cycles := Kernel.CyclesOf(inputs, payloads);
      |cycles| == |payloads| && forall i :: 0 <= i < |cycles| ==> Leaves(cycles[i], 112)
    decreases |payloads|
  {
    hide Leaves, NumPages, CycleActions;
    if payloads != [] {
      var j := |payloads| - 1;
      CyclesLeave(inputs, payloads[..j]);
      CycleLeaves(payloads[j], inputs[j].workload);
    }
  }

  lemma {:induction false} CycleLeaves(payload: seq<byte>, workload: seq<Action>)
    requires Leaves(workload, 112) && NumPages(|payload|) <= 0x200_0000
    ensures Leaves(CycleActions(payload, workload), 112)
  {
    hide NumPages, Stores;
    HeapStoresLeave(|payload|, 0, payload);
    assert HEAP_START + 0 == HEAP_START;
    var own := Stores(HEAP_START, payload);
    assert Leaves(own, 112);
    LeavesBoth([Grow(NumPages(|payload|), RW)], own, 112);
    LeavesBoth([Grow(NumPages(|payload|), RW)] + own, workload, 112);
  }
}
