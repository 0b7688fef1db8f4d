/** Boot and any number of workload cycles: what holds of the machine at the end and in each cycle. */
module KernelRuns {
  import opened Bytes
  import opened Numbers
  import opened Wrappers
  import opened PmmSpec
  import opened MemoryMap
  import opened Pmm
  import opened Paging
  import opened PageTree
  import opened VmSpec
  import opened VmProofs
  import opened VmInit
  import opened HeapSpec
  import opened HeapProofs
  import opened HeapRuns
  import opened VirtualMemory
  import opened KernelApi
  import opened FirstFit
  import opened Spared
  import opened HeapCycles
  import opened Boot
  import opened BootFrames
  import opened MachineFacts
  import opened HeapCounts
  import opened ApiExact
  import opened Vmm
  import opened PayloadMemory
  import opened PollTurn
  import opened Pacing
  import opened Kernel
  import Network
  import NetworkSpec
  import LoaderSpec

  // kernel_main up to its loop: the allocator, the address space, the API page with its struct, and a
  // receiver that has seen nothing. initial is what pmm_init left: every managed frame but the bitmap's.
  method Start(h: Handover, mem: array<Table>) returns (k: Kernel, ghost initial: PmmSpec.Pmm)
    requires Sane(h.entries)
    requires forall end :: IsCeiling(h.entries, end) ==> BitmapBytes(FrameCount(end)) < 0x8000_0000
    modifies mem
    ensures k.Valid() && k.state == Polling && k.machine.mem == mem && k.machine.nextVirtAddr == HEAP_START
    ensures k.machine.State() == BootVm(old(mem[..]), initial, h)
    ensures PmmOk(initial) && initial.count == |initial.free| && initial.free <= Run(0, initial.total)
    ensures exists end :: IsCeiling(h.entries, end) && initial.total == FrameCount(end)
    ensures exists home ::
      IsBitmapHome(h.entries, initial.bytes, home) && initial.free == Covered(h.entries) - Touched(home, initial.bytes)
  {
    hide FrameAllocator.State, VmSpec.MapRange, Init, Covered, Touched, RunActions, Stores, InRam, Reaches, LastFrame, FirstRoom,
         IsCeiling, IsBitmapHome;
    var pmm := new FrameAllocator(h.entries);
    initial := pmm.State();
    AllocatorState(pmm);
    var machine := new Machine(pmm, mem, h.kernelVirt, h.kernelPhys, h.entries, h.hhdm);
    machine.MapRange(KERNEL_API_ADDRESS, KERNEL_API_ADDRESS, 4096, RW);
    var rx := new Network.Receiver();
    k := new Kernel(machine, rx);
    StructNext(machine.State(), h);
    k.Perform(Stores(KERNEL_API_ADDRESS, h.api));
  }

  lemma {:induction false} AllocatorState(pmm: FrameAllocator)
    requires pmm.Valid()
    ensures PmmOk(pmm.State()) && pmm.State().count == pmm.freeFrames
    ensures pmm.State().bytes == pmm.bitmap.Length && pmm.State().total == pmm.totalFrames
  {
  }

  lemma {:induction false} StructNext(vm: Vm, h: Handover)
    ensures RunActions(vm, HEAP_START, Stores(KERNEL_API_ADDRESS, h.api)).1 == HEAP_START
  {
    StoresStay(vm, HEAP_START, KERNEL_API_ADDRESS, h.api);
  }

  // Each workload keeps to its heap and the API page, and no cycle needs more than n pages.
  predicate Modest(inputs: seq<Input>, payloads: seq<seq<byte>>, n: nat)
    requires |payloads| <= |inputs|
  {
    forall i :: 0 <= i < |payloads| ==>
      InHeap(NumPages(|payloads[i]|), inputs[i].workload) && NumPages(|payloads[i]|) + Total(inputs[i].workload) <= n
  }

  lemma {:induction false} ModestCycles(inputs: seq<Input>, payloads: seq<seq<byte>>, n: nat)
    requires |payloads| <= |inputs| && n <= HUGE_COUNT && Modest(inputs, payloads, n)
    ensures AllInHeap(CyclesOf(inputs, payloads)) && Peak(CyclesOf(inputs, payloads)) <= n
    decreases |payloads|
  {
    hide CycleActions, InHeap, NumPages, Total;
    if payloads != [] {
      var k := |payloads| - 1;
      ModestCycles(inputs, payloads[..k], n);
      CycleInHeap(payloads[k], inputs[k].workload);
      PeakLast(CyclesOf(inputs, payloads[..k]), CycleActions(payloads[k], inputs[k].workload));
    }
  }

  lemma {:induction false} PeakLast(cycles: seq<seq<Action>>, last: seq<Action>)
    ensures Peak(cycles + [last]) == Max(Peak(cycles), Total(last))
    decreases |cycles|
  {
    hide Total;
    if cycles == [] {
      assert (cycles + [last])[1..] == [];
    } else {
      assert (cycles + [last])[0] == cycles[0] && (cycles + [last])[1..] == cycles[1..] + [last];
      PeakLast(cycles[1..], last);
    }
  }

  // What boot and the cycles ask for: a machine that can be initialised, the heap's part of the address
  // space and the API frame left alone, workloads that keep to their heaps of at most n pages, and
  // memory for these. ApiRuns.BootReady and BootReadyExact say when that is so from the allocator alone.
  ghost predicate Fitting(mem: Mem, pmm: PmmSpec.Pmm, h: Handover, inputs: seq<Input>, payloads: seq<seq<byte>>, n: nat) {
    && CanInit(mem, pmm, h) && PmmOk(pmm) && OffHeap(pmm, h) && ApiSpared(pmm, h)
    && |payloads| <= |inputs| && n <= HUGE_COUNT && Modest(inputs, payloads, n)
    && Ready(BootVm(mem, pmm, h), n)
  }

  lemma {:induction false} FittingIs(mem: Mem, pmm: PmmSpec.Pmm, h: Handover, inputs: seq<Input>,
                                     payloads: seq<seq<byte>>, n: nat)
    requires Fitting(mem, pmm, h, inputs, payloads, n)
    ensures CanInit(mem, pmm, h) && PmmOk(pmm) && OffHeap(pmm, h) && ApiSpared(pmm, h)
    ensures |payloads| <= |inputs| && n <= HUGE_COUNT && Modest(inputs, payloads, n) && Ready(BootVm(mem, pmm, h), n)
  {
  }

  // Boot, then any number of cycles: the heap is empty again, every translation is that of boot, the
  // counter is exact, at most HeapTables(n) frames are gone for good, and no frame but the allocator's
  // and the API frame was written.
  lemma {:induction false} MachineRuns(mem: Mem, pmm: PmmSpec.Pmm, h: Handover, inputs: seq<Input>,
                                       payloads: seq<seq<byte>>, n: nat)
    requires Fitting(mem, pmm, h, inputs, payloads, n) && pmm.count == |pmm.free|
    ensures |payloads| <= |inputs|
    ensures var start := BootVm(mem, pmm, h);
      var end := RunCycles(start, CyclesOf(inputs, payloads));
      && Idle(end) && SameWalks(start, end) && end.pmm.count == |end.pmm.free|
      && end.pmm.free <= start.pmm.free && |start.pmm.free| - |end.pmm.free| <= HeapTables(n)
      && |end.mem| == |mem| && forall f :: 0 <= f < |mem| && f !in pmm.free && f != API_FRAME ==> end.mem[f] == mem[f]
  {
    hide *;
    FittingIs(mem, pmm, h, inputs, payloads, n);
    BootCorrect(mem, pmm, h);
    BootCounts(mem, pmm, h);
    var start, cycles := BootVm(mem, pmm, h), CyclesOf(inputs, payloads);
    ModestCycles(inputs, payloads, n);
    RunCyclesCorrect(start, cycles, n);
    RunCyclesCount(start, cycles, n);
    NoLeak(start, cycles, n);
    CountIs(RunCycles(start, cycles).pmm);
    ReadyIs(start, n);
    ReadyIs(RunCycles(start, cycles), n);
    ButApiIs(start, RunCycles(start, cycles), HeapPlaces(0, Peak(cycles)), {});
    forall f | 0 <= f < |mem| && f !in pmm.free && f != API_FRAME
      ensures RunCycles(start, cycles).mem[f] == mem[f]
    {
      NotPool(start, pmm, f);
      OthersKept(start, cycles, n, f);
    }
  }

  lemma {:induction false} NotPool(vm: Vm, pmm: PmmSpec.Pmm, f: nat)
    requires Booting(vm, pmm.free) && f !in pmm.free
    ensures f !in vm.pmm.free && !IsTable(vm.mem, vm.root, f)
  {
    hide Walk, VmInv;
    forall p
      ensures TableAt(vm.mem, vm.root, p) != Some(f)
    {
      assert At(vm, p).Some? ==> At(vm, p).value in pmm.free;
    }
  }

  lemma {:induction false} CountIs(pmm: PmmSpec.Pmm)
    requires CountLaw(pmm, 0)
    ensures pmm.count == |pmm.free|
  {
  }

  // The bitmap lies on frames that nothing but the allocator writes, as long as the API frame is none
  // of them.
  lemma {:induction false} BitmapUntouched(mem: Mem, pmm: PmmSpec.Pmm, h: Handover, inputs: seq<Input>,
                                           payloads: seq<seq<byte>>, n: nat, home: nat)
    requires Fitting(mem, pmm, h, inputs, payloads, n) && pmm.count == |pmm.free|
    requires pmm.free !! Touched(home, pmm.bytes) && API_FRAME !in Touched(home, pmm.bytes)
    ensures |payloads| <= |inputs|
    ensures SameFrames(mem, RunCycles(BootVm(mem, pmm, h), CyclesOf(inputs, payloads)).mem, Touched(home, pmm.bytes))
  {
    hide Fitting, BootVm, RunCycles, CyclesOf, Touched, Idle, SameWalks;
    MachineRuns(mem, pmm, h, inputs, payloads, n);
  }

  // In each cycle, when the workload starts, the payload is in the heap byte by byte.
  lemma {:induction false} EveryPayload(mem: Mem, pmm: PmmSpec.Pmm, h: Handover, inputs: seq<Input>,
                                        payloads: seq<seq<byte>>, n: nat, k: nat)
    requires Fitting(mem, pmm, h, inputs, payloads, n) && k < |payloads|
    ensures |payloads| <= |inputs|
    ensures var vm := RunCycles(BootVm(mem, pmm, h), CyclesOf(inputs, payloads[..k]));
      var (m, next) := AfterDownload(vm, payloads[k]);
      next == HeapAddr(NumPages(|payloads[k]|)) && Holds(m, payloads[k], |payloads[k]|)
  {
    hide *;
    FittingIs(mem, pmm, h, inputs, payloads, n);
    BootCorrect(mem, pmm, h);
    FirstModest(inputs, payloads, n, k);
    ModestCycles(inputs, payloads[..k], n);
    var start, cycles := BootVm(mem, pmm, h), CyclesOf(inputs, payloads[..k]);
    RunCyclesCorrect(start, cycles, n);
    ReadyFewer(RunCycles(start, cycles), NumPages(|payloads[k]|), n);
    var blocks := PayloadInMemory(RunCycles(start, cycles), NumPages(|payloads[k]|), payloads[k]);
    AfterIs(RunCycles(start, cycles), payloads[k]);
  }

  lemma {:induction false} FirstModest(inputs: seq<Input>, payloads: seq<seq<byte>>, n: nat, k: nat)
    requires |payloads| <= |inputs| && Modest(inputs, payloads, n) && k < |payloads|
    ensures Modest(inputs, payloads[..k], n) && NumPages(|payloads[k]|) <= n
  {
    hide InHeap, Total, NumPages;
    assert NumPages(|payloads[k]|) + Total(inputs[k].workload) <= n;
  }

  lemma {:induction false} AfterIs(vm: Vm, payload: seq<byte>)
    ensures AfterDownload(vm, payload) == Downloaded(vm, NumPages(|payload|), payload)
  {
  }

  // From frames to memory: with frames that hold a header and enough data, and keep the pace,
  // the kernel booted on this machine finishes every cycle, and when the k-th workload starts the bytes
  // that were sent to it are in the heap.
  lemma {:induction false} SentIsInMemory(mem: Mem, pmm: PmmSpec.Pmm, h: Handover, rx: NetworkSpec.Rx,
                                          inputs: seq<Input>, sizes: seq<nat>, n: nat, k: nat)
    requires NetworkSpec.Sized(rx) && AllSend(inputs, sizes) && AllPaced(inputs) && k < |inputs|
    requires Fitting(mem, pmm, h, inputs, Downloads(rx, inputs), n)
    ensures var payloads := Downloads(rx, inputs);
      && |payloads| == |inputs| && sizes[k] <= |DataSent(inputs[k].line.frames)|
      && var m := AfterDownload(RunCycles(BootVm(mem, pmm, h), CyclesOf(inputs, payloads[..k])), payloads[k]).0;
         forall o :: 0 <= o < sizes[k] ==> LoadByte(m, HEAP_START + o) == Some(DataSent(inputs[k].line.frames)[o])
  {
    hide Fitting, BootVm, RunCycles, CyclesOf, Downloads, DataSent, AfterDownload, LoadByte, Sends, AllPaced, Pow256;
    EveryDownload(rx, inputs, sizes);
    assert Delivered(Downloads(rx, inputs)[k], DataSent(inputs[k].line.frames), sizes[k]);
    EveryPayload(mem, pmm, h, inputs, Downloads(rx, inputs), n, k);
  }

  // A turn that waits for ever leaves a sound machine: the tables and the heap are as they must be with
  // the pages of the payload mapped, if it came to that, and the bytes that have come are in them.
  lemma {:induction false} WaitingSound(mem: Mem, pmm: PmmSpec.Pmm, h: Handover, rx: NetworkSpec.Rx,
                                        inputs: seq<Input>, n: nat) returns (blocks: seq<nat>)
    requires NetworkSpec.Sized(rx) && Fitting(mem, pmm, h, inputs, Downloads(rx, inputs), n) && |Downloads(rx, inputs)| < |inputs|
    requires var last := |Downloads(rx, inputs)|;
      NumPages(HeaderRun(RxAt(rx, inputs, last), inputs[last].line).value) <= n
    ensures var payloads := Downloads(rx, inputs);
      var start, rx', line := BootVm(mem, pmm, h), RxAt(rx, inputs, |payloads|), inputs[|payloads|].line;
      var came := Received(PollRun(rx', line).rx);
      && Grown(RunCycles(start, CyclesOf(inputs, payloads)), Waiting(start, rx, inputs, payloads), blocks)
      && if HeaderRun(rx', line).ok then
           && |blocks| == NumPages(HeaderRun(rx', line).value)
           && Holds(Waiting(start, rx, inputs, payloads), came, |came|)
         else
           blocks == []
  {
    hide *;
    var payloads := Downloads(rx, inputs);
    FittingIs(mem, pmm, h, inputs, payloads, n);
    var start, cycles := BootVm(mem, pmm, h), CyclesOf(inputs, payloads);
    ModestCycles(inputs, payloads, n);
    RunCyclesCorrect(start, cycles, n);
    var m, last := RunCycles(start, cycles), |payloads|;
    blocks := TurnSound(m, RxAt(rx, inputs, last), inputs[last].line, n);
    WaitingIs(start, rx, inputs, payloads);
  }

  lemma {:induction false} WaitingIs(start: Vm, rx: NetworkSpec.Rx, inputs: seq<Input>, payloads: seq<seq<byte>>)
    requires NetworkSpec.Sized(rx) && |payloads| < |inputs|
    ensures Waiting(start, rx, inputs, payloads) ==
      RunActions(RunCycles(start, CyclesOf(inputs, payloads)), HEAP_START,
                 PollStores() + TurnActions(RxAt(rx, inputs, |payloads|), inputs[|payloads|].line)).0
  {
  }

  // One turn, ended or not.
  lemma {:induction false} TurnSound(m: Vm, rx: NetworkSpec.Rx, line: NetworkSpec.Line, n: nat) returns (blocks: seq<nat>)
    requires NetworkSpec.Sized(rx) && Ready(m, n) && NumPages(HeaderRun(rx, line).value) <= n
    ensures var vm, came := RunActions(m, HEAP_START, PollStores() + TurnActions(rx, line)).0, Received(PollRun(rx, line).rx);
      && Grown(m, vm, blocks)
      && if HeaderRun(rx, line).ok then |blocks| == NumPages(HeaderRun(rx, line).value) && Holds(vm, came, |came|) else blocks == []
  {
    hide Ready, HeaderRun, PollRun, RunActions, PollStores, Received, Stores, NumPages, Grown, Holds;
    if HeaderRun(rx, line).ok {
      var size, came := HeaderRun(rx, line).value, Received(PollRun(rx, line).rx);
      ReadyFewer(m, NumPages(size), n);
      CameSize(rx, line);
      PagesOrder(|came|, size);
      blocks := PayloadInMemory(m, NumPages(size), came);
    } else {
      ReadyFewer(m, 0, n);
      NoActions();
      blocks := GrownAt(m, []);
    }
  }

  lemma {:induction false} NoActions()
    ensures InHeap(0, []) && Total([]) == 0
  {
  }

  lemma {:induction false} PagesOrder(a: nat, b: nat)
    requires a <= b
    ensures NumPages(a) <= NumPages(b)
  {
  }

  // No more bytes come than were announced.
  lemma {:induction false} CameSize(rx: NetworkSpec.Rx, line: NetworkSpec.Line)
    requires NetworkSpec.Sized(rx) && HeaderRun(rx, line).ok
    ensures |Received(PollRun(rx, line).rx)| <= HeaderRun(rx, line).value
  {
    hide HeaderRun, LoaderSpec.LoadRun, NumPages, Zeros, NetworkSpec.Pause;
    var sized := HeaderRun(rx, line);
    var (paused, rest) := NetworkSpec.Pause(sized.rx, sized.rest);
    PagesHold(sized.value);
    LoadedBytes(NetworkSpec.SetDest(paused, Zeros(NumPages(sized.value) * BLOCK_SIZE), sized.value), sized.value, rest);
  }
}
