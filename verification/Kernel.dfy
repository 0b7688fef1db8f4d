/** The kernel's loop: poll for a workload, execute it, reset the heap, and again. */
module Kernel {
  import opened Bytes
  import opened Numbers
  import opened Wrappers
  import opened PmmSpec
  import opened MemoryMap
  import opened Pmm
  import opened Paging
  import opened PageTree
  import opened VmSpec
  import opened VmProofs
  import opened VmInit
  import opened HeapSpec
  import opened HeapProofs
  import opened HeapRuns
  import opened Words
  import opened VirtualMemory
  import opened KernelApi
  import opened HeapCycles
  import opened Boot
  import opened MachineFacts
  import opened HeapCounts
  import opened Vmm
  import opened PayloadMemory
  import NetworkSpec
  import Network
  import LoaderSpec
  import LoaderProofs
  import Loader
  import PollTurn
  import Pacing
  import PacingExact

  datatype States = Polling | Executing | Extracting

  // What the outside does during one cycle: the frames that come in, some of them while the kernel does
  // not wait for any, and what the workload does to memory.
  datatype Input = Input(line: NetworkSpec.Line, workload: seq<Action>)

  // ---- what a run downloads --------------------------------------------------------------------------

  // The bytes at the destination that have come.
  function Received(rx: NetworkSpec.Rx): seq<byte> {
    if rx.dest.Some? && rx.received <= |rx.dest.value| then rx.dest.value[..rx.received] else []
  }

  // The receiver after a cycle: frames that a download leaves over come while the workload runs.
  function AfterCycle(o: LoaderSpec.Outcome): (rx: NetworkSpec.Rx)
    requires NetworkSpec.Sized(o.rx)
    ensures NetworkSpec.Sized(rx)
  {
    NetworkSpec.DeliverAll(o.rx, o.rest.frames)
  }

  // The payloads of the cycles, up to the first that would wait for ever.
  function Downloads(rx: NetworkSpec.Rx, inputs: seq<Input>): (payloads: seq<seq<byte>>)
    requires NetworkSpec.Sized(rx)
    ensures |payloads| <= |inputs|
    decreases |inputs|
  {
    if inputs == [] then []
    else
      var o := PollTurn.PollRun(rx, inputs[0].line);
      if !o.ok then [] else [Received(o.rx)] + Downloads(AfterCycle(o), inputs[1..])
  }

  lemma {:induction false} DownloadsUnfold(rx: NetworkSpec.Rx, inputs: seq<Input>, k: nat)
    requires NetworkSpec.Sized(rx) && k < |inputs|
    ensures var o := PollTurn.PollRun(rx, inputs[k].line);
      Downloads(rx, inputs[k..]) == if o.ok then [Received(o.rx)] + Downloads(AfterCycle(o), inputs[k + 1..]) else []
  {
    hide PollTurn.PollRun, AfterCycle, Received;
    assert inputs[k..][0] == inputs[k] && inputs[k..][1..] == inputs[k + 1..];
  }

  // The receiver when cycle k begins.
  function RxAt(rx: NetworkSpec.Rx, inputs: seq<Input>, k: nat): (r: NetworkSpec.Rx)
    requires NetworkSpec.Sized(rx) && k <= |inputs|
    ensures NetworkSpec.Sized(r)
  {
    if k == 0 then rx else AfterCycle(PollTurn.PollRun(RxAt(rx, inputs, k - 1), inputs[k - 1].line))
  }

  // What a POLLING turn does to memory after clearing the API fields, whether or not it ends: nothing
  // while it waits for the header, then the pages, and in them the bytes that have come.
  function TurnActions(rx: NetworkSpec.Rx, line: NetworkSpec.Line): seq<Action>
    requires NetworkSpec.Sized(rx)
  {
    var sized := PollTurn.HeaderRun(rx, line);
    if !sized.ok then []
    else [Grow(PollTurn.NumPages(sized.value), RW)] + Stores(HEAP_START, Received(PollTurn.PollRun(rx, line).rx))
  }

  // Each cycle's frames hold a header in the first matching frame and enough data after it.
  predicate AllSend(inputs: seq<Input>, sizes: seq<nat>) {
    && |sizes| == |inputs|
    && forall k :: 0 <= k < |inputs| ==> Pacing.Sends(inputs[k].line.frames, sizes[k]) && sizes[k] < Pow256(8)
  }

  // The data is exactly what the headers announce.
  predicate AllExact(inputs: seq<Input>, sizes: seq<nat>)
    requires |sizes| == |inputs|
  {
    forall k :: 0 <= k < |inputs| ==> |Pacing.DataSent(inputs[k].line.frames)| == sizes[k]
  }

  predicate AllPaced(inputs: seq<Input>) {
    forall k :: 0 <= k < |inputs| ==> Pacing.Paced(inputs[k].line)
  }

  // Every cycle completes, with the size and the bytes that were sent.
  predicate AllDelivered(rx: NetworkSpec.Rx, inputs: seq<Input>, sizes: seq<nat>)
    requires NetworkSpec.Sized(rx) && |sizes| == |inputs|
  {
    var payloads := Downloads(rx, inputs);
    && |payloads| == |inputs|
    && forall k :: 0 <= k < |inputs| ==> Delivered(payloads[k], Pacing.DataSent(inputs[k].line.frames), sizes[k])
  }

  predicate Delivered(payload: seq<byte>, sent: seq<byte>, size: nat) {
    size <= |sent| && payload == sent[..size]
  }

  // Whatever the receiver did before, that is so if every cycle's frames keep the pace: none but the
  // header comes before the kernel has set the destination. And for senders that send no more than they
  // announce it is so only then.
  lemma {:induction false} EveryDownload(rx: NetworkSpec.Rx, inputs: seq<Input>, sizes: seq<nat>)
    requires NetworkSpec.Sized(rx) && AllSend(inputs, sizes)
    ensures AllPaced(inputs) ==> AllDelivered(rx, inputs, sizes)
    ensures AllExact(inputs, sizes) && AllDelivered(rx, inputs, sizes) ==> AllPaced(inputs)
    decreases |inputs|
  {
    hide PollTurn.PollRun, AfterCycle, Pacing.DataSent, Pacing.Sends, Pacing.Paced, Received, Delivered, Pow256, Downloads;
    if inputs != [] {
      assert Pacing.Sends(inputs[0].line.frames, sizes[0]) && sizes[0] < Pow256(8);
      OneDownload(rx, inputs[0].line, sizes[0]);
      var o, rest := PollTurn.PollRun(rx, inputs[0].line), inputs[1..];
      forall k | 0 <= k < |rest|
        ensures Pacing.Sends(rest[k].line.frames, sizes[1..][k]) && sizes[1..][k] < Pow256(8)
      {
        assert rest[k] == inputs[k + 1];
      }
      EveryDownload(AfterCycle(o), rest, sizes[1..]);
      FirstAndRest(rx, inputs, sizes);
    } else {
      NoneLeft(rx, inputs);
    }
  }

  // One turn.
  lemma {:induction false} OneDownload(rx: NetworkSpec.Rx, line: NetworkSpec.Line, size: nat)
    requires NetworkSpec.Sized(rx) && Pacing.Sends(line.frames, size) && size < Pow256(8)
    ensures var o, sent := PollTurn.PollRun(rx, line), Pacing.DataSent(line.frames);
      && (Pacing.Paced(line) ==> o.ok && Delivered(Received(o.rx), sent, size))
      && (|sent| == size && o.ok && Delivered(Received(o.rx), sent, size) ==> Pacing.Paced(line))
  {
    hide PollTurn.PollRun, Pacing.DataSent, Pacing.Sends, Pacing.Paced, Pow256;
    var o := PollTurn.PollRun(rx, line);
    if Pacing.Paced(line) {
      Pacing.PollDelivers(rx, line, size);
    } else if o.ok && |Pacing.DataSent(line.frames)| == size {
      ReceivedSize(rx, line);
      PacingExact.PollExact(rx, line, size);
    }
  }

  lemma {:induction false} FirstAndRest(rx: NetworkSpec.Rx, inputs: seq<Input>, sizes: seq<nat>)
    requires NetworkSpec.Sized(rx) && inputs != [] && |sizes| == |inputs|
    ensures var o := PollTurn.PollRun(rx, inputs[0].line);
      AllDelivered(rx, inputs, sizes) <==>
        && o.ok && Delivered(Received(o.rx), Pacing.DataSent(inputs[0].line.frames), sizes[0])
        && AllDelivered(AfterCycle(o), inputs[1..], sizes[1..])
    ensures AllPaced(inputs) <==> Pacing.Paced(inputs[0].line) && AllPaced(inputs[1..])
    ensures AllExact(inputs, sizes) ==> |Pacing.DataSent(inputs[0].line.frames)| == sizes[0] && AllExact(inputs[1..], sizes[1..])
  {
    hide PollTurn.PollRun, AfterCycle, Pacing.DataSent, Pacing.Paced, Received, Delivered;
    var o, rest := PollTurn.PollRun(rx, inputs[0].line), inputs[1..];
    assert forall k :: 0 < k < |inputs| ==> inputs[k] == rest[k - 1] && sizes[k] == sizes[1..][k - 1];
    if o.ok {
      var payloads, later := Downloads(rx, inputs), Downloads(AfterCycle(o), rest);
      assert payloads == [Received(o.rx)] + later;
      assert forall k :: 0 < k < |payloads| ==> payloads[k] == later[k - 1];
    }
  }

  // A turn that ends has received as many bytes as it asked for.
  lemma {:induction false} ReceivedSize(rx: NetworkSpec.Rx, line: NetworkSpec.Line)
    requires NetworkSpec.Sized(rx) && PollTurn.PollRun(rx, line).ok
    ensures var o := PollTurn.PollRun(rx, line);
      |Received(o.rx)| == o.value && PollTurn.HeaderRun(rx, line).value == o.value
  {
    hide PollTurn.HeaderRun, LoaderSpec.LoadRun, PollTurn.NumPages, PollTurn.Zeros, NetworkSpec.Pause;
    var sized := PollTurn.HeaderRun(rx, line);
    var (paused, rest) := NetworkSpec.Pause(sized.rx, sized.rest);
    PollTurn.PagesHold(sized.value);
    var bytes := PollTurn.Zeros(PollTurn.NumPages(sized.value) * BLOCK_SIZE);
    LoadedBytes(NetworkSpec.SetDest(paused, bytes, sized.value), sized.value, rest);
  }

  lemma {:induction false} LoadedBytes(s: NetworkSpec.Rx, size: nat, line: NetworkSpec.Line)
    requires NetworkSpec.Sized(s) && s.dest.Some? && s.expected == size && s.received <= size
    ensures var o := LoaderSpec.LoadRun(s, size, line);
      && o.value == size && o.rx.dest.Some? && |o.rx.dest.value| == |s.dest.value| && o.rx.received <= size <= |s.dest.value|
      && (o.ok ==> o.rx.received == size)
    decreases |line.frames|
  {
    hide NetworkSpec.Matches;
    if s.received < size && line.frames != [] {
      LoadedBytes(NetworkSpec.ReceiveFrame(s, line.frames[0]), size, line.(frames := line.frames[1..]));
    }
  }

  // In every cycle of a run, frames that come before the destination is set store nothing, and neither
  // do those that come while the workload runs.
  lemma {:induction false} NoLateStores(rx: NetworkSpec.Rx, inputs: seq<Input>, k: nat)
    requires NetworkSpec.Sized(rx) && PollTurn.Full(rx) && k < |Downloads(rx, inputs)|
    ensures var before := RxAt(rx, inputs, k);
      var sized, o := PollTurn.HeaderRun(before, inputs[k].line), PollTurn.PollRun(before, inputs[k].line);
      && PollTurn.Unstored(before, NetworkSpec.Pause(sized.rx, sized.rest).0)
      && PollTurn.Unstored(o.rx, RxAt(rx, inputs, k + 1)) && PollTurn.Full(RxAt(rx, inputs, k + 1))
    decreases k
  {
    hide PollTurn.PollRun, PollTurn.HeaderRun, NetworkSpec.DeliverAll, NetworkSpec.Pause, Downloads, Received;
    if k > 0 {
      NoLateStores(rx, inputs, k - 1);
    }
    var before, line := RxAt(rx, inputs, k), inputs[k].line;
    PollTurn.FullHeader(before, line);
    TurnEnds(rx, inputs, k);
    TurnFull(before, line);
    RxNext(rx, inputs, k);
    var o := PollTurn.PollRun(before, line);
    PollTurn.FullDelivery(o.rx, o.rest.frames);
  }

  // The turns of the downloads end.
  lemma {:induction false} TurnEnds(rx: NetworkSpec.Rx, inputs: seq<Input>, k: nat)
    requires NetworkSpec.Sized(rx) && k < |Downloads(rx, inputs)|
    ensures PollTurn.PollRun(RxAt(rx, inputs, k), inputs[k].line).ok
  {
    hide PollTurn.PollRun, Downloads, RxAt, AfterCycle;
    DownloadsFrom(rx, inputs, k);
    DownloadsUnfold(RxAt(rx, inputs, k), inputs, k);
  }

  lemma {:induction false} DownloadsFrom(rx: NetworkSpec.Rx, inputs: seq<Input>, k: nat)
    requires NetworkSpec.Sized(rx) && k <= |Downloads(rx, inputs)|
    ensures |Downloads(RxAt(rx, inputs, k), inputs[k..])| == |Downloads(rx, inputs)| - k
    decreases k
  {
    hide PollTurn.PollRun, Downloads, AfterCycle, Received;
    if k == 0 {
      assert inputs[0..] == inputs;
    } else {
      DownloadsFrom(rx, inputs, k - 1);
      DownloadsUnfold(RxAt(rx, inputs, k - 1), inputs, k - 1);
    }
  }

  lemma {:induction false} TurnFull(rx: NetworkSpec.Rx, line: NetworkSpec.Line)
    requires NetworkSpec.Sized(rx) && PollTurn.PollRun(rx, line).ok
    ensures PollTurn.Full(PollTurn.PollRun(rx, line).rx)
  {
    hide PollTurn.HeaderRun, LoaderSpec.LoadRun, PollTurn.NumPages, PollTurn.Zeros, NetworkSpec.Pause;
    var sized := PollTurn.HeaderRun(rx, line);
    var (paused, rest) := NetworkSpec.Pause(sized.rx, sized.rest);
    PollTurn.PagesHold(sized.value);
    LoadedFull(NetworkSpec.SetDest(paused, PollTurn.Zeros(PollTurn.NumPages(sized.value) * BLOCK_SIZE), sized.value), sized.value, rest);
  }

  lemma {:induction false} LoadedFull(s: NetworkSpec.Rx, size: nat, line: NetworkSpec.Line)
    requires NetworkSpec.Sized(s) && s.expected == size
    ensures LoaderSpec.LoadRun(s, size, line).ok ==> PollTurn.Full(LoaderSpec.LoadRun(s, size, line).rx)
    decreases |line.frames|
  {
    hide NetworkSpec.Matches;
    if s.received < size && line.frames != [] {
      LoadedFull(NetworkSpec.ReceiveFrame(s, line.frames[0]), size, line.(frames := line.frames[1..]));
    }
  }

  // ---- the loop ----------------------------------------------------------------------------------

  class Kernel {
    const machine: Machine
    const rx: Network.Receiver
    var state: States
    var payloadMem: nat

    ghost predicate Valid()
      reads this, machine, machine.pmm, machine.mem, machine.pmm.bitmap, rx, rx.hdrBuf, rx.dest
    {
      && machine.Valid() && rx.Valid()
      && Separate(rx.hdrBuf, rx.dest, machine.mem, machine.pmm.bitmap)
    }

    constructor (machine: Machine, rx: Network.Receiver)
      requires machine.Valid() && rx.Valid() && Separate(rx.hdrBuf, rx.dest, machine.mem, machine.pmm.bitmap)
      ensures Valid() && this.machine == machine && this.rx == rx && state == Polling
    {
      this.machine, this.rx := machine, rx;
      state := Polling;
      payloadMem := 0;
    }

    // A byte stored at a virtual address.
    method Store(v: nat, b: byte)
      requires machine.Valid()
      modifies machine.mem
      ensures machine.Valid() && machine.State() == StoreByte(old(machine.State()), v, b)
    {
      hide Walk, SetByte, FrameAllocator.State;
      var at := Walk(machine.mem[..], machine.pml4, v);
      if at.Mapped? {
        var offset := v % 4096;
        var word := machine.ReadEntry(at.frame, offset / 8);
        machine.WriteEntry(at.frame, offset / 8, SetByte(word, offset % 8, b));
      }
    }

    // Allocations and stores, of the kernel or of the workload.
    method Perform(actions: seq<Action>)
      requires machine.Valid()
      modifies machine`nextVirtAddr, machine.mem, machine.pmm`freeFrames, machine.pmm.bitmap
      ensures machine.Valid()
      ensures (machine.State(), machine.nextVirtAddr) == RunActions(old(machine.State()), old(machine.nextVirtAddr), actions)
    {
      hide Machine.State, StoreByte, AllocHuge;
      var rest := actions;
      while rest != []
        invariant machine.Valid()
        invariant RunActions(machine.State(), machine.nextVirtAddr, rest)
               == RunActions(old(machine.State()), old(machine.nextVirtAddr), actions)
        decreases |rest|
      {
        match rest[0] {
          case Grow(n, flags) =>
            var start := machine.AllocHugePage(n, flags);
          case Write(v, b) =>
            Store(v, b);
        }
        rest := rest[1..];
      }
    }

    // poll_payload: the destination is set, then the bytes of the frames that come in are stored there.
    // ok is false where the source would wait for ever.
    method PollPayload(bytes: array<byte>, size: nat, line: NetworkSpec.Line) returns (ok: bool, rest: NetworkSpec.Line)
      requires Valid() && bytes != rx.hdrBuf && size <= bytes.Length && Separate(rx.hdrBuf, bytes, machine.mem, machine.pmm.bitmap)
      modifies rx, rx.hdrBuf, bytes
      modifies machine`nextVirtAddr, machine.mem, machine.pmm`freeFrames, machine.pmm.bitmap
      ensures Valid() && rx.dest == bytes && rx.received <= bytes.Length
      ensures LoaderSpec.Outcome(ok, size, rx.State(), rest)
           == LoaderSpec.LoadRun(NetworkSpec.SetDest(old(rx.State()), old(bytes[..]), size), size, line)
      ensures (machine.State(), machine.nextVirtAddr)
           == RunActions(old(machine.State()), old(machine.nextVirtAddr), Stores(payloadMem, bytes[..rx.received]))
    {
      hide Machine.State, RunActions, LoaderSpec.LoadRun, NetworkSpec.ReceiveFrame, Stores;
      rest := line;
      rx.SetDest(bytes, size);
      ghost var vm, next := machine.State(), machine.nextVirtAddr;
      NoStores(vm, next, payloadMem, bytes[..0]);
      while rx.received < size
        invariant Valid() && rx.dest == bytes && rx.received <= rx.expected == size
        invariant LoaderSpec.LoadRun(rx.State(), size, rest)
               == LoaderSpec.LoadRun(NetworkSpec.SetDest(old(rx.State()), old(bytes[..]), size), size, line)
        invariant (machine.State(), machine.nextVirtAddr) == RunActions(vm, next, Stores(payloadMem, bytes[..rx.received]))
        decreases |rest.frames|
      {
        LoaderSpec.LoadUnfold(rx.State(), size, rest);
        if rest.frames == [] {
          return false, rest;
        }
        var was := rx.received;
        ghost var came := bytes[..was];
        FrameAppends(rx.State(), rest.frames[0]);
        rx.ReceiveFrame(rest.frames[0]);
        rest := rest.(frames := rest.frames[1..]);
        assert bytes[..rx.received] == came + bytes[was..rx.received];
        Perform(Stores(payloadMem + was, bytes[was..rx.received]));
        StoresMore(vm, next, payloadMem, came, bytes[was..rx.received]);
      }
      LoaderSpec.LoadUnfold(rx.State(), size, rest);
      ok := true;
    }

    // Pages for the payload, then the payload, frame by frame as it comes; some frames come while the
    // pages are mapped.
    method Download(size: nat, line: NetworkSpec.Line) returns (ok: bool, rest: NetworkSpec.Line)
      requires Valid()
      modifies this`payloadMem, rx, rx.hdrBuf, rx.dest
      modifies machine`nextVirtAddr, machine.mem, machine.pmm`freeFrames, machine.pmm.bitmap
      ensures Valid() && fresh(rx.dest) && rx.received <= rx.dest.Length && payloadMem == AlignUp(old(machine.nextVirtAddr))
      ensures var (paused, left) := NetworkSpec.Pause(old(rx.State()), line);
        LoaderSpec.Outcome(ok, size, rx.State(), rest) == PollTurn.PayloadRun(paused, size, left)
      ensures (machine.State(), machine.nextVirtAddr)
           == InPages(old(machine.State()), old(machine.nextVirtAddr), payloadMem, PollTurn.NumPages(size), rx.dest[..rx.received])
    {
      hide Machine.State, RunActions, AllocHuge, LoaderSpec.LoadRun, Network.Receiver.State, NetworkSpec.Pause;
      var numPages := size / BLOCK_SIZE;
      if size % BLOCK_SIZE != 0 {
        numPages := numPages + 1;
      }
      payloadMem := machine.AllocHugePage(numPages, RW);
      var left := rx.Interrupts(line);
      PollTurn.PagesHold(size);
      // The payload as the receiver writes it; it is stored through payloadMem as well.
      var bytes := new byte[numPages * BLOCK_SIZE](_ => 0);
      assert bytes[..] == PollTurn.Zeros(numPages * BLOCK_SIZE);
      ok, rest := PollPayload(bytes, size, left);
    }

    // The POLLING turn.
    method Poll(line: NetworkSpec.Line) returns (ok: bool, payload: seq<byte>, rest: NetworkSpec.Line)
      requires Valid() && state == Polling && machine.nextVirtAddr == HEAP_START
      modifies this`state, this`payloadMem, rx, rx.hdrBuf, rx.dest
      modifies machine`nextVirtAddr, machine.mem, machine.pmm`freeFrames, machine.pmm.bitmap
      ensures Valid() && (rx.dest == old(rx.dest) || fresh(rx.dest))
      ensures var o := PollTurn.PollRun(old(rx.State()), line);
        && ok == o.ok && rest == o.rest && rx.State() == o.rx && (ok ==> payload == Received(o.rx))
      ensures if ok then state == Executing && payloadMem == HEAP_START else state == Polling
      ensures (machine.State(), machine.nextVirtAddr)
           == RunActions(old(machine.State()), HEAP_START, PollStores() + TurnActions(old(rx.State()), line))
    {
      hide Machine.State, RunActions, PollStores, Stores, LoaderSpec.UnlockRun, LoaderSpec.SizeRun, PollTurn.PayloadRun,
           Network.Receiver.State, AllocHuge, NetworkSpec.Pause, Received;
      payload := [];
      rx.ResetHeader();
      Perform(PollStores());
      PollStoresNext(old(machine.State()));
      assert PollStores() + [] == PollStores();
      var magic, size;
      ok, magic, rest := Loader.Unlock(rx, line);
      if !ok {
        return;
      }
      ok, size, rest := Loader.PollPayloadSize(rx, rest);
      if !ok {
        return;
      }
      ok, rest := Download(size, rest);
      DestIs(rx);
      InPagesIs(old(machine.State()), PollTurn.NumPages(size), rx.dest[..rx.received]);
      if ok {
        payload := rx.dest[..rx.received];
        state := Executing;
      }
    }

    // Running the workload, while the frames left over come in; then the reset.
    method Execute(workload: seq<Action>, frames: seq<NetworkSpec.Frame>)
      requires Valid() && state == Executing
      modifies this`state, rx, rx.hdrBuf, rx.dest
      modifies machine`nextVirtAddr, machine.mem, machine.pmm`freeFrames, machine.pmm.bitmap
      ensures Valid() && state == Extracting && machine.nextVirtAddr == HEAP_START
      ensures rx.dest == old(rx.dest) && rx.State() == NetworkSpec.DeliverAll(old(rx.State()), frames)
      ensures var (vm, next) := RunActions(old(machine.State()), old(machine.nextVirtAddr), workload);
        machine.State() == HeapSpec.ResetHeap(vm, next)
    {
      hide Machine.State, RunActions, HeapSpec.ResetHeap, NetworkSpec.DeliverAll;
      rx.Receive(frames);
      Perform(workload);
      machine.ResetHeap();
      state := Extracting;
    }

    // kernel_main's loop for a given run of inputs, one for each cycle, with the payloads that were
    // downloaded. It stops early, with fewer of them, exactly where the source would wait for ever.
    // After a full run memory is what these cycles make of it; after an early stop it is what they and
    // the turn that waits have made of it.
    method Run(inputs: seq<Input>) returns (payloads: seq<seq<byte>>)
      requires Valid() && state == Polling && machine.nextVirtAddr == HEAP_START
      modifies this`state, this`payloadMem, rx, rx.hdrBuf, rx.dest
      modifies machine`nextVirtAddr, machine.mem, machine.pmm`freeFrames, machine.pmm.bitmap
      ensures Valid() && payloads == Downloads(old(rx.State()), inputs) && |payloads| <= |inputs| && state == Polling
      ensures |payloads| == |inputs| ==> machine.nextVirtAddr == HEAP_START
      ensures |payloads| == |inputs| ==> machine.State() == RunCycles(old(machine.State()), CyclesOf(inputs, payloads))
      ensures |payloads| < |inputs| ==> machine.State() == Waiting(old(machine.State()), old(rx.State()), inputs, payloads)
    {
      hide Machine.State, AfterDownload, RunActions, RunCycles, Cycle, CycleActions, CyclesOf, Downloads, PollTurn.PollRun,
           Network.Receiver.State, HeapSpec.ResetHeap, Received, NetworkSpec.DeliverAll, TurnActions, PollStores, RxAt;
      payloads := [];
      var payload, left := [], NetworkSpec.Line([], []);
      ghost var start, rx0 := machine.State(), rx.State();
      NoCycleYet(start, inputs, rx0);
      while |payloads| < |inputs|
        invariant Valid() && |payloads| <= |inputs|
        invariant state != Polling ==> |payloads| < |inputs|
        invariant rx.dest == old(rx.dest) || fresh(rx.dest)
        invariant state != Executing ==> machine.nextVirtAddr == HEAP_START
        invariant state == Polling ==> rx.State() == RxAt(rx0, inputs, |payloads|)
        invariant state == Executing ==> NetworkSpec.DeliverAll(rx.State(), left.frames) == RxAt(rx0, inputs, |payloads| + 1)
        invariant state == Extracting ==> rx.State() == RxAt(rx0, inputs, |payloads| + 1)
        invariant state == Polling ==> payloads + Downloads(rx.State(), inputs[|payloads|..]) == Downloads(rx0, inputs)
        invariant state != Polling ==>
          payloads + [payload] + Downloads(RxAt(rx0, inputs, |payloads| + 1), inputs[|payloads| + 1..]) == Downloads(rx0, inputs)
        invariant state == Polling ==> machine.State() == RunCycles(start, CyclesOf(inputs, payloads))
        invariant state == Executing ==>
          (machine.State(), machine.nextVirtAddr) == AfterDownload(RunCycles(start, CyclesOf(inputs, payloads)), payload)
        invariant state == Extracting ==>
          machine.State() == Cycle(RunCycles(start, CyclesOf(inputs, payloads)), CycleActions(payload, inputs[|payloads|].workload))
        decreases |inputs| - |payloads|, Rank(state)
      {
        ghost var cycles := CyclesOf(inputs, payloads);
        var input := inputs[|payloads|];
        match state {
          case Polling =>
            DownloadsUnfold(rx.State(), inputs, |payloads|);
            RxNext(rx0, inputs, |payloads|);
            TurnIsDownload(RunCycles(start, cycles), rx.State(), input.line);
            var ok;
            ok, payload, left := Poll(input.line);
            if !ok {
              return;
            }
          case Executing =>
            CycleIs(RunCycles(start, cycles), payload, input.workload);
            Execute(input.workload, left.frames);
          case Extracting =>
            RunCyclesLast(start, cycles, CycleActions(payload, input.workload));
            CyclesLast(inputs, payloads, payload);
            payloads := payloads + [payload];
            state := Polling;
        }
      }
      NoneLeft(rx.State(), inputs);
    }
  }

  // Memory when the turn after these cycles waits for ever.
  function Waiting(vm: Vm, rx: NetworkSpec.Rx, inputs: seq<Input>, payloads: seq<seq<byte>>): Vm
    requires NetworkSpec.Sized(rx) && |payloads| < |inputs|
  {
    RunActions(RunCycles(vm, CyclesOf(inputs, payloads)), HEAP_START,
               PollStores() + TurnActions(RxAt(rx, inputs, |payloads|), inputs[|payloads|].line)).0
  }

  lemma {:induction false} RxNext(rx: NetworkSpec.Rx, inputs: seq<Input>, k: nat)
    requires NetworkSpec.Sized(rx) && k < |inputs|
    ensures RxAt(rx, inputs, k + 1) == AfterCycle(PollTurn.PollRun(RxAt(rx, inputs, k), inputs[k].line))
    ensures AfterCycle(PollTurn.PollRun(RxAt(rx, inputs, k), inputs[k].line))
         == NetworkSpec.DeliverAll(PollTurn.PollRun(RxAt(rx, inputs, k), inputs[k].line).rx, PollTurn.PollRun(RxAt(rx, inputs, k), inputs[k].line).rest.frames)
  {
    hide PollTurn.PollRun;
  }

  // A turn that ends leaves the payload in its pages.
  lemma {:induction false} TurnIsDownload(vm: Vm, rx: NetworkSpec.Rx, line: NetworkSpec.Line)
    requires NetworkSpec.Sized(rx)
    ensures var o := PollTurn.PollRun(rx, line);
      o.ok ==> RunActions(vm, HEAP_START, PollStores() + TurnActions(rx, line)) == AfterDownload(vm, Received(o.rx))
  {
    hide PollTurn.PayloadRun, PollTurn.HeaderRun, RunActions, PollStores, Stores, PollTurn.NumPages, Received, NetworkSpec.Pause;
    if PollTurn.PollRun(rx, line).ok {
      ReceivedSize(rx, line);
    }
  }

  // A frame leaves the bytes that have come and adds some, if any, behind them.
  lemma {:induction false} FrameAppends(s: NetworkSpec.Rx, data: NetworkSpec.Frame)
    requires NetworkSpec.Sized(s) && s.dest.Some? && s.received <= s.expected
    ensures var r := NetworkSpec.ReceiveFrame(s, data);
      && s.received <= r.received <= r.expected == s.expected && r.dest.Some? && |r.dest.value| == |s.dest.value|
      && r.dest.value[..s.received] == s.dest.value[..s.received]
  {
    hide NetworkSpec.Matches;
  }

  lemma {:induction false} NoStores(vm: Vm, next: nat, v: nat, none: seq<byte>)
    requires none == []
    ensures RunActions(vm, next, Stores(v, none)) == (vm, next)
  {
  }

  lemma {:induction false} StoresMore(vm: Vm, next: nat, v: nat, a: seq<byte>, b: seq<byte>)
    ensures var (m, next') := RunActions(vm, next, Stores(v, a));
      RunActions(vm, next, Stores(v, a + b)) == RunActions(m, next', Stores(v + |a|, b))
  {
    hide RunActions, Stores;
    StoresJoin(v, a, b);
    RunActionsJoin(vm, next, Stores(v, a), Stores(v + |a|, b));
  }

  lemma {:induction false} StoresJoin(v: nat, a: seq<byte>, b: seq<byte>)
    ensures Stores(v, a + b) == Stores(v, a) + Stores(v + |a|, b)
    decreases |a|
  {
    if a == [] {
      assert a + b == b && [] + Stores(v, b) == Stores(v, b);
    } else {
      assert (a + b)[0] == a[0] && (a + b)[1..] == a[1..] + b;
      StoresJoin(v + 1, a[1..], b);
      assert [Write(v, a[0])] + (Stores(v + 1, a[1..]) + Stores(v + |a|, b)) == Stores(v, a) + Stores(v + |a|, b);
    }
  }

  // The pages are there, and these bytes in them.
  function InPages(vm: Vm, next: nat, start: nat, pages: nat, bytes: seq<byte>): (Vm, nat) {
    var (vm', next') := AllocHuge(vm, next, pages, RW);
    RunActions(vm', next', Stores(start, bytes))
  }

  lemma {:induction false} InPagesIs(vm: Vm, pages: nat, bytes: seq<byte>)
    ensures AlignUp(HEAP_START) == HEAP_START
    ensures InPages(RunActions(vm, HEAP_START, PollStores()).0, HEAP_START, HEAP_START, pages, bytes)
         == RunActions(vm, HEAP_START, PollStores() + ([Grow(pages, RW)] + Stores(HEAP_START, bytes)))
  {
    hide AllocHuge, Stores, PollStores;
    var grow := [Grow(pages, RW)];
    AlignedNext(0);
    PollStoresNext(vm);
    var g := RunActions(vm, HEAP_START, PollStores()).0;
    RunActionsJoin(vm, HEAP_START, PollStores(), grow + Stores(HEAP_START, bytes));
    RunActionsJoin(g, HEAP_START, grow, Stores(HEAP_START, bytes));
    assert RunActions(g, HEAP_START, grow) == AllocHuge(g, HEAP_START, pages, RW) by { assert grow[1..] == []; }
  }

  lemma {:induction false} PollStoresNext(vm: Vm)
    ensures RunActions(vm, HEAP_START, PollStores()).1 == HEAP_START
  {
    StoresStay(vm, HEAP_START, KERNEL_API_ADDRESS + OUTPUT_OFFSET, seq(16, i => 0 as byte));
  }

  lemma {:induction false} DestIs(rx: Network.Receiver)
    ensures rx.dest != null && rx.received <= rx.dest.Length ==> Received(rx.State()) == rx.dest[..rx.received]
  {
  }

  lemma {:induction false} NoneLeft(rx: NetworkSpec.Rx, inputs: seq<Input>)
    requires NetworkSpec.Sized(rx)
    ensures Downloads(rx, inputs[|inputs|..]) == [] && (inputs == [] ==> Downloads(rx, inputs) == [])
  {
  }

  function Rank(state: States): nat {
    match state
    case Polling => 2
    case Executing => 1
    case Extracting => 0
  }

  // The receiver's buffers are not the machine's arrays.
  predicate Separate(hdr: object, dest: object?, mem: object, bitmap: object) {
    hdr != mem && hdr != bitmap && dest != mem && dest != bitmap
  }

  lemma {:induction false} NoCycleYet(vm: Vm, inputs: seq<Input>, rx: NetworkSpec.Rx)
    requires NetworkSpec.Sized(rx)
    ensures RunCycles(vm, CyclesOf(inputs, [])) == vm
    ensures [] + Downloads(rx, inputs[0..]) == Downloads(rx, inputs) && RxAt(rx, inputs, 0) == rx
  {
    hide Downloads, Cycle;
    assert inputs[0..] == inputs;
  }

  // ---- cycles of a run -----------------------------------------------------------------------------

  // The actions of the first cycles, for the payloads downloaded in them.
  function CyclesOf(inputs: seq<Input>, payloads: seq<seq<byte>>): seq<seq<Action>>
    requires |payloads| <= |inputs|
    decreases |payloads|
  {
    if payloads == [] then []
    else
      var k := |payloads| - 1;
      CyclesOf(inputs, payloads[..k]) + [CycleActions(payloads[k], inputs[k].workload)]
  }

  lemma {:induction false} CyclesLast(inputs: seq<Input>, payloads: seq<seq<byte>>, payload: seq<byte>)
    requires |payloads| < |inputs|
    ensures CyclesOf(inputs, payloads + [payload]) == CyclesOf(inputs, payloads) + [CycleActions(payload, inputs[|payloads|].workload)]
  {
    assert (payloads + [payload])[..|payloads|] == payloads;
  }

  lemma {:induction false} RunCyclesLast(vm: Vm, cycles: seq<seq<Action>>, last: seq<Action>)
    ensures RunCycles(vm, cycles + [last]) == Cycle(RunCycles(vm, cycles), last)
    decreases |cycles|
  {
    hide Cycle;
    if cycles == [] {
      assert (cycles + [last])[1..] == [];
    } else {
      assert (cycles + [last])[0] == cycles[0] && (cycles + [last])[1..] == cycles[1..] + [last];
      RunCyclesLast(Cycle(vm, cycles[0]), cycles[1..], last);
    }
  }
}
