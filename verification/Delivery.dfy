/** From the bytes a sender puts on the wire to the memory the workload runs in. */
module Delivery {
  import opened Bytes
  import opened Wrappers
  import opened PmmSpec
  import opened Paging
  import opened VmSpec
  import opened VmProofs
  import opened Words
  import opened HeapCycles
  import opened Boot
  import opened BootFrames
  import opened PollTurn
  import opened Pacing
  import opened Wire
  import opened PayloadMemory
  import opened Mmu
  import opened HeapAccess
  import Kernel
  import KernelRuns
  import NetworkSpec

  // Every cycle's frames hold a first chunk that announces a size, and later ones with as many bytes.
  predicate AllSent(inputs: seq<Kernel.Input>, sizes: seq<nat>) {
    |sizes| == |inputs| && forall k :: 0 <= k < |inputs| ==> Sent(inputs[k].line.frames, sizes[k])
  }

  lemma {:induction false} AllSentSend(inputs: seq<Kernel.Input>, sizes: seq<nat>)
    requires AllSent(inputs, sizes)
    ensures Kernel.AllSend(inputs, sizes) && |sizes| == |inputs|
  {
    hide Sent, Sends, Pow256;
    forall k | 0 <= k < |inputs|
      ensures Sends(inputs[k].line.frames, sizes[k]) && sizes[k] < Pow256(8)
    {
      SentSends(inputs[k].line.frames, sizes[k]);
    }
  }

  // Then, if they keep the pace, every cycle completes, and when the k-th workload starts the processor
  // finds byte o of the later chunks at address 0xffff900000000000 + o, in memory it may write and execute.
  lemma {:induction false} WireToWorkload(mem: Mem, pmm: Pmm, h: Handover, rx: NetworkSpec.Rx, inputs: seq<Kernel.Input>,
                                          sizes: seq<nat>, n: nat, k: nat, o: nat)
    requires NetworkSpec.Sized(rx) && AllSent(inputs, sizes) && Kernel.AllPaced(inputs) && k < |inputs| && o < sizes[k]
    requires KernelRuns.Fitting(mem, pmm, h, inputs, Kernel.Downloads(rx, inputs), n)
    ensures var payloads := Kernel.Downloads(rx, inputs);
      && |payloads| == |inputs|
      && var m := AfterDownload(RunCycles(BootVm(mem, pmm, h), Kernel.CyclesOf(inputs, payloads[..k])), payloads[k]).0;
         var at, sent := Translate(m, 0xffff_9000_0000_0000 + o), Concat(Chunks(inputs[k].line.frames)[1..]);
         && at.Access? && at.writeable && at.executable
         && o < |sent| && ByteAt(m.mem, at.phys / 4096, at.phys % 4096) == sent[o]
  {
    hide *;
    AllSentSend(inputs, sizes);
    Kernel.EveryDownload(rx, inputs, sizes);
    var payloads := Kernel.Downloads(rx, inputs);
    DeliveredAt(rx, inputs, sizes, k);
    SentAt(inputs, sizes, k);
    SentSends(inputs[k].line.frames, sizes[k]);
    KernelRuns.FittingIs(mem, pmm, h, inputs, payloads, n);
    KernelRuns.FirstModest(inputs, payloads, n, k);
    KernelRuns.ModestCycles(inputs, payloads[..k], n);
    var start, cycles := BootVm(mem, pmm, h), Kernel.CyclesOf(inputs, payloads[..k]);
    RunCyclesCorrect(start, cycles, n);
    ReadyFewer(RunCycles(start, cycles), NumPages(|payloads[k]|), n);
    PayloadAccess(RunCycles(start, cycles), payloads[k], o);
  }

  lemma {:induction false} DeliveredAt(rx: NetworkSpec.Rx, inputs: seq<Kernel.Input>, sizes: seq<nat>, k: nat)
    requires NetworkSpec.Sized(rx) && |sizes| == |inputs| && Kernel.AllDelivered(rx, inputs, sizes) && k < |inputs|
    ensures |Kernel.Downloads(rx, inputs)| == |inputs|
    ensures var payload, sent := Kernel.Downloads(rx, inputs)[k], DataSent(inputs[k].line.frames);
      |payload| == sizes[k] <= |sent| && payload == sent[..sizes[k]]
  {
    hide Kernel.Downloads, DataSent;
    assert Kernel.Delivered(Kernel.Downloads(rx, inputs)[k], DataSent(inputs[k].line.frames), sizes[k]);
  }

  lemma {:induction false} SentAt(inputs: seq<Kernel.Input>, sizes: seq<nat>, k: nat)
    requires AllSent(inputs, sizes) && k < |inputs|
    ensures Sent(inputs[k].line.frames, sizes[k])
  {
    hide Sent;
  }
}
