/** A downloaded payload in the heap: where its bytes are stored, and that they are there. */
module PayloadMemory {
  import opened Bytes
  import opened Wrappers
  import opened PmmSpec
  import opened Paging
  import opened PageTree
  import opened VmSpec
  import opened VmProofs
  import opened HeapSpec
  import opened HeapProofs
  import opened HeapRuns
  import opened VirtualMemory
  import opened KernelApi
  import opened Spared
  import opened HeapCycles
  import opened MachineFacts
  import opened PollTurn

  // The page count is the exact number of 2 MB pages: every payload byte falls into one of them,
  // and no page is without one.
  lemma {:induction false} PayloadPages(size: nat, o: nat)
    ensures o < size ==> HeapIndex(HEAP_START + o) < NumPages(size) || NumPages(size) > HUGE_COUNT
    ensures size > 0 ==> (NumPages(size) - 1) * BLOCK_SIZE < size <= NumPages(size) * BLOCK_SIZE
  {
    var k := o / BLOCK_SIZE;
    if o < size && NumPages(size) <= HUGE_COUNT {
      OffsetPage(o);
    }
  }

  lemma {:induction false} OffsetPage(o: nat)
    requires o / BLOCK_SIZE < HUGE_COUNT
    ensures HeapIndex(HEAP_START + o) == o / BLOCK_SIZE
  {
    assert (HEAP_START + o) / 0x20_0000 == HEAP_START / 0x20_0000 + o / 0x20_0000;
    Shifted(HEAP_START / 0x20_0000, o / 0x20_0000, (HEAP_START + o) / 0x20_0000);
  }

  // What one cycle does to memory after the kernel's own stores: pages for the payload, the payload's
  // bytes in the order they are received, the workload.
  function CycleActions(payload: seq<byte>, workload: seq<Action>): seq<Action> {
    [Grow(NumPages(|payload|), RW)] + Stores(HEAP_START, payload) + workload
  }

  // The state and next_virt_addr when these pages are mapped and these bytes have come.
  function Downloaded(vm: Vm, pages: nat, bytes: seq<byte>): (Vm, nat) {
    RunActions(vm, HEAP_START, PollStores() + ([Grow(pages, RW)] + Stores(HEAP_START, bytes)))
  }

  // When the payload is in place.
  function AfterDownload(vm: Vm, payload: seq<byte>): (Vm, nat) {
    Downloaded(vm, NumPages(|payload|), payload)
  }

  // Every byte of a download is stored in a heap page mapped in its cycle: the actions of a cycle are
  // legal whenever those of its workload are.
  lemma {:induction false} CycleInHeap(payload: seq<byte>, workload: seq<Action>)
    requires NumPages(|payload|) <= HUGE_COUNT && InHeap(NumPages(|payload|), workload)
    ensures InHeap(0, CycleActions(payload, workload))
    ensures Total(CycleActions(payload, workload)) == NumPages(|payload|) + Total(workload)
  {
    hide HeapIndex, NumPages;
    var size := |payload|;
    var rest := Stores(HEAP_START, payload) + workload;
    forall w | HEAP_START <= w < HEAP_START + size
      ensures HeapIndex(w) < NumPages(size)
    {
      PayloadPages(size, w - HEAP_START);
      assert HEAP_START + (w - HEAP_START) == w;
    }
    StoresFirst(HEAP_START, payload, NumPages(size), workload);
    assert CycleActions(payload, workload) == [Grow(NumPages(size), RW)] + rest;
    assert ([Grow(NumPages(size), RW)] + rest)[1..] == rest;
  }

  lemma {:induction false} CycleIs(vm: Vm, payload: seq<byte>, workload: seq<Action>)
    ensures var (m, next) := AfterDownload(vm, payload);
      var (m', next') := RunActions(m, next, workload);
      HeapSpec.ResetHeap(m', next') == Cycle(vm, CycleActions(payload, workload))
  {
    hide PollStores, RunActions, Stores;
    var own := [Grow(NumPages(|payload|), RW)] + Stores(HEAP_START, payload);
    RunActionsJoin(vm, HEAP_START, PollStores() + own, workload);
    assert PollStores() + own + workload == PollStores() + CycleActions(payload, workload);
  }

  // ---- the bytes are there ---------------------------------------------------------------------------

  // Different offsets are different bytes.
  lemma {:induction false} OffsetsApart(o: nat, p: nat)
    requires o < 0x1_0000_0000_0000 && p < 0x1_0000_0000_0000
    requires SamePage(HEAP_START + o, HEAP_START + p) && (HEAP_START + o) % 4096 == (HEAP_START + p) % 4096
    ensures o == p
  {
    assert (HEAP_START + o) / 0x1000 == HEAP_START / 0x1000 + o / 0x1000;
    assert (HEAP_START + p) / 0x1000 == HEAP_START / 0x1000 + p / 0x1000;
    SameSmall(HEAP_START / 0x1000, o / 0x1000, p / 0x1000);
  }

  lemma {:induction false} SameSmall(h: nat, a: nat, b: nat)
    requires a < 0x10_0000_0000 && b < 0x10_0000_0000 && (h + a) % 0x10_0000_0000 == (h + b) % 0x10_0000_0000
    ensures a == b
  {
  }

  // The first k bytes of the payload are in the heap.
  ghost predicate Holds(vm: Vm, payload: seq<byte>, k: nat) {
    k <= |payload| && forall o :: 0 <= o < k ==> LoadByte(vm, HEAP_START + o) == Some(payload[o])
  }

  // Storing the next one keeps the others.
  lemma {:induction false} HoldsMore(vm: Vm, blocks: seq<nat>, payload: seq<byte>, k: nat)
    requires HeapInv(vm, blocks) && NumPages(|payload|) <= |blocks| && k < |payload| && Holds(vm, payload, k)
    ensures Holds(StoreByte(vm, HEAP_START + k, payload[k]), payload, k + 1)
  {
    hide HeapInvFrom, StoreByte, LoadByte, Walk, SamePage, HeapIndex, NumPages, IsTable;
    var v := HEAP_START + k;
    SizeSmall(vm, blocks, |payload|);
    PayloadPages(|payload|, k);
    forall o | 0 <= o < k + 1
      ensures LoadByte(StoreByte(vm, v, payload[k]), HEAP_START + o) == Some(payload[o])
    {
      PayloadPages(|payload|, o);
      HeapOneToOne(vm, blocks, v, HEAP_START + o);
      InMemory(vm, blocks);
      StoreThenLoad(vm, v, payload[k], HEAP_START + o);
      if SamePage(v, HEAP_START + o) && v % 4096 == (HEAP_START + o) % 4096 {
        OffsetsApart(k, o);
      }
    }
  }

  lemma {:induction false} SizeSmall(vm: Vm, blocks: seq<nat>, size: nat)
    requires HeapInv(vm, blocks) && NumPages(size) <= |blocks|
    ensures |blocks| <= HUGE_COUNT && size < 0x1_0000_0000_0000
  {
    CapSmall(vm);
    PagesHold(size);
  }

  lemma {:induction false} InMemory(vm: Vm, blocks: seq<nat>)
    requires HeapInv(vm, blocks)
    ensures vm.pmm.total <= |vm.mem|
  {
  }

  lemma {:induction false} StoresHold(start: Vm, vm: Vm, blocks: seq<nat>, next: nat, payload: seq<byte>, k: nat)
    requires Grown(start, vm, blocks) && NumPages(|payload|) <= |blocks| && Holds(vm, payload, k)
    ensures var end := RunActions(vm, next, Stores(HEAP_START + k, payload[k..])).0;
      Grown(start, end, blocks) && Holds(end, payload, |payload|)
    decreases |payload| - k
  {
    hide Grown, Holds, StoreByte, HeapIndex, OnApiPage, NumPages;
    HoldsWithin(vm, payload, k);
    if k < |payload| {
      var actions := Stores(HEAP_START + k, payload[k..]);
      assert payload[k..][1..] == payload[k + 1..] && payload[k..][0] == payload[k];
      assert actions[0] == Write(HEAP_START + k, payload[k]) && actions[1..] == Stores(HEAP_START + (k + 1), payload[k + 1..]);
      GrownInv(start, vm, blocks);
      SizeSmall(vm, blocks, |payload|);
      PayloadPages(|payload|, k);
      GrownWritten(start, vm, blocks, HEAP_START + k, payload[k]);
      HoldsMore(vm, blocks, payload, k);
      StoresHold(start, StoreByte(vm, HEAP_START + k, payload[k]), blocks, next, payload, k + 1);
    } else {
      assert payload[k..] == [];
    }
  }

  lemma {:induction false} HoldsWithin(vm: Vm, payload: seq<byte>, k: nat)
    requires Holds(vm, payload, k)
    ensures k <= |payload|
  {
  }

  lemma {:induction false} HoldsNone(vm: Vm, payload: seq<byte>)
    ensures Holds(vm, payload, 0)
  {
  }

  // During the download and after it every byte that has come is found at HEAP_START and on, in claimed
  // frames that are no page tables; nothing else about the address space is different from the heap's
  // growth.
  lemma {:induction false} PayloadInMemory(vm: Vm, pages: nat, payload: seq<byte>) returns (blocks: seq<nat>)
    requires Ready(vm, pages) && NumPages(|payload|) <= pages
    ensures |blocks| == pages
    ensures var (m, next) := Downloaded(vm, pages, payload);
      Grown(vm, m, blocks) && next == HeapAddr(|blocks|) && Holds(m, payload, |payload|)
  {
    hide Ready, NumPages, Grown, Holds, RunActions, Stores, PollStores, InHeap, Total;
    var grow := [Grow(pages, RW)];
    var own := grow + Stores(HEAP_START, payload);
    GrowOnly(pages);
    blocks := GrownAt(vm, grow);
    var (g, next) := RunActions(vm, HEAP_START, PollStores() + grow);
    HoldsNone(g, payload);
    assert payload[0..] == payload && HEAP_START + 0 == HEAP_START;
    StoresHold(vm, g, blocks, next, payload, 0);
    StoresStay(g, next, HEAP_START, payload);
    RunActionsJoin(vm, HEAP_START, PollStores() + grow, Stores(HEAP_START, payload));
    assert PollStores() + grow + Stores(HEAP_START, payload) == PollStores() + own;
  }

  lemma {:induction false} GrowOnly(n: nat)
    ensures InHeap(0, [Grow(n, RW)]) && Total([Grow(n, RW)]) == n
  {
    assert [Grow(n, RW)][1..] == [];
    assert Total([]) == 0 && InHeap(n, []);
  }

  // Each of those bytes lies in a frame that is claimed and no page table.
  lemma {:induction false} PayloadFrames(start: Vm, vm: Vm, blocks: seq<nat>, size: nat, o: nat)
    requires Grown(start, vm, blocks) && NumPages(size) <= |blocks| && o < size
    ensures var at := Walk(vm.mem, vm.root, HEAP_START + o);
      at.Mapped? && at.frame !in vm.pmm.free && !IsTable(vm.mem, vm.root, at.frame)
  {
    hide *;
    GrownInv(start, vm, blocks);
    SizeSmall(vm, blocks, size);
    PayloadPages(size, o);
    HeapOneToOne(vm, blocks, HEAP_START + o, HEAP_START + o);
  }
}
