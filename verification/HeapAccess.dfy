/** What the processor may do with a heap page: write and execute it, as the kernel asked. */
module HeapAccess {
  import opened Bytes
  import opened Wrappers
  import opened PmmSpec
  import opened Paging
  import opened PageTree
  import opened VmSpec
  import opened VmProofs
  import opened HeapSpec
  import opened HeapProofs
  import opened HeapRuns
  import opened Words
  import opened VirtualMemory
  import opened KernelApi
  import opened FirstFit
  import opened HeapPlacement
  import opened Spared
  import opened HeapCycles
  import opened Boot
  import opened MachineFacts
  import opened ApiRuns
  import opened Mmu
  import opened PollTurn
  import opened PayloadMemory

  // ---- growth ----------------------------------------------------------------------------------------

  lemma {:induction false} HeapOffset(o: nat)
    requires o < 0x1_0000_0000_0000
    ensures HeapIndex(0xffff_9000_0000_0000 + o) == o / 0x20_0000
    ensures Index(0xffff_9000_0000_0000 + o, 0) == o / 0x1000 % 512 && (0xffff_9000_0000_0000 + o) % 4096 == o % 4096
  {
    OffsetPage(o);
    assert (0xffff_9000_0000_0000 + o) / 0x1000 == 0xffff_9000_0000_0 + o / 0x1000;
  }

  lemma {:induction false} HugeRights(flags: Flags)
    ensures AsHuge(flags).low / 2 % 2 == flags.low / 2 % 2 && AsHuge(flags).high == flags.high
    ensures AsHuge(Flags(3, 0)) == Flags(0x83, 0)
  {
    var x: nat := AsLeaf(flags).low;
    assert x / 2 == flags.low / 2;
    assert (x + 0x80) / 2 == x / 2 + 0x40;
  }

  lemma {:induction false} SmallHeap(vm: Vm, blocks: seq<nat>)
    requires HeapInv(vm, blocks)
    ensures VmInv(vm) && |blocks| <= 0x200_0000
  {
    CapSmall(vm);
  }

  // vmm_alloc_huge_page: every byte of the new pages lies at its offset in its block, may be written if
  // the flags have bit 1, and executed unless they have bit 63.
  lemma {:induction false} GrownAccess(vm: Vm, blocks: seq<nat>, n: nat, flags: Flags, o: nat)
    requires HeapInv(vm, blocks) && Room(vm, |blocks|, n)
    requires 0x20_0000 * |blocks| <= o < 0x20_0000 * (|blocks| + n)
    ensures var c := AllocFrom(vm, 0xffff_9000_0000_0000 + 0x20_0000 * |blocks|, n, flags);
      var b := Blocks(vm.pmm.free, GeometryOf(vm.pmm), TablesFor(vm, {}, |blocks|, n))[o / 0x20_0000 - |blocks|];
      && Translate(c, 0xffff_9000_0000_0000 + o)
         == Access(0x20_0000 * b + o % 0x20_0000, flags.low / 2 % 2 == 1, flags.high / 0x800 == 0)
      && (flags == Flags(3, 0) ==> Walk(c.mem, c.root, 0xffff_9000_0000_0000 + o) == Mapped(512 * b + o / 0x1000 % 512, Flags(0x83, 0)))
  {
    hide VmInv, HeapInvFrom, Room, Walk, Translate, Grew, Zeroed, BlockUnion, HeapPlaces, Blocks, TablesFor, AfterPages, Suffice,
         AsHuge, HeapIndex, Index, AllocFrom;
    var k := |blocks|;
    var ms, g := TablesFor(vm, {}, k, n), GeometryOf(vm.pmm);
    var blocks' := blocks + Blocks(vm.pmm.free, g, ms);
    AllocFromCorrect(vm, blocks, n, flags);
    var c := AllocFrom(vm, HeapAddr(k), n, flags);
    assert HeapAddr(k) == 0xffff_9000_0000_0000 + 0x20_0000 * k;
    SmallHeap(c, blocks');
    HeapOffset(o);
    HugeRights(flags);
    TranslateIsWalk(c, 0xffff_9000_0000_0000 + o);
    assert blocks'[o / 0x20_0000] == Blocks(vm.pmm.free, g, ms)[o / 0x20_0000 - k];
    OffsetInBlock(blocks'[o / 0x20_0000], o);
  }

  lemma {:induction false} OffsetInBlock(b: nat, o: nat)
    ensures 4096 * (512 * b + o / 0x1000 % 512) + o % 4096 == 0x20_0000 * b + o % 0x20_0000
  {
    assert o / 0x20_0000 == o / 0x1000 / 512;
  }

  // ---- when a workload starts ------------------------------------------------------------------------

  // Stores keep every translation.
  lemma {:induction false} StoresKeepWalks(start: Vm, vm: Vm, blocks: seq<nat>, next: nat, payload: seq<byte>, k: nat)
    requires Grown(start, vm, blocks) && NumPages(|payload|) <= |blocks| && k <= |payload|
    ensures SameWalks(vm, RunActions(vm, next, Stores(HEAP_START + k, payload[k..])).0)
    decreases |payload| - k
  {
    hide Grown, StoreByte, HeapIndex, OnApiPage, NumPages, SameWalks;
    if k < |payload| {
      var actions := Stores(HEAP_START + k, payload[k..]);
      assert payload[k..][1..] == payload[k + 1..] && payload[k..][0] == payload[k];
      assert actions[0] == Write(HEAP_START + k, payload[k]) && actions[1..] == Stores(HEAP_START + (k + 1), payload[k + 1..]);
      GrownInv(start, vm, blocks);
      GrownApi(start, vm, blocks);
      SizeSmall(vm, blocks, |payload|);
      PayloadPages(|payload|, k);
      WriteEffect(vm, blocks, HEAP_START + k, payload[k]);
      GrownWritten(start, vm, blocks, HEAP_START + k, payload[k]);
      var b := StoreByte(vm, HEAP_START + k, payload[k]);
      SameButWalks(vm, b, Open(blocks));
      StoresKeepWalks(start, b, blocks, next, payload, k + 1);
      SameWalksTrans(vm, b, RunActions(b, next, actions[1..]).0);
    } else {
      assert payload[k..] == [];
      SameWalksRefl(vm);
    }
  }

  lemma {:induction false} SameButWalks(a: Vm, b: Vm, frames: set<nat>)
    requires SameBut(a, b, frames)
    ensures SameWalks(a, b)
  {
  }

  lemma {:induction false} SameWalksRefl(a: Vm)
    ensures SameWalks(a, a)
  {
  }

  // The pages of a download, before the first byte comes.
  lemma {:induction false} PagesFlags(vm: Vm, pages: nat, w: nat)
    requires Ready(vm, pages) && HeapIndex(w) < pages
    ensures var g := RunActions(vm, HEAP_START, PollStores() + [Grow(pages, RW)]).0;
      Walk(g.mem, g.root, w).Mapped? && Walk(g.mem, g.root, w).flags == Flags(0x83, 0)
  {
    hide *;
    ReadyIs(vm, pages);
    FirstGrowth(vm, pages);
    WorkingNow(vm, [Grow(pages, RW)]);
    var c := Working(vm, [], [Grow(pages, RW)]);
    var a, blocks :| Idle(a) && HeapInv(c, blocks) && |blocks| == pages && PagesAdded(a, c, [], blocks, RW)
      && a.pmm == vm.pmm && |a.mem| == |vm.mem|
      && c.pmm.free == AfterPages(vm.pmm.free, GeometryOf(vm.pmm), TablesFor(vm, {}, 0, pages));
    PageFlags(a, c, blocks, w);
  }

  lemma {:induction false} WorkingNow(vm: Vm, actions: seq<Action>)
    ensures Working(vm, [], actions) == RunActions(vm, HEAP_START, PollStores() + actions).0
  {
  }

  lemma {:induction false} PageFlags(a: Vm, c: Vm, blocks: seq<nat>, w: nat)
    requires PagesAdded(a, c, [], blocks, RW) && HeapIndex(w) < |blocks|
    ensures Walk(c.mem, c.root, w).Mapped? && Walk(c.mem, c.root, w).flags == Flags(0x83, 0)
  {
    hide Walk, Grew, Zeroed, HeapIndex;
    HugeRights(RW);
  }

  // When the workload starts, every byte of it lies where the processor finds it at HEAP_START and on,
  // in memory that may be written and executed.
  lemma {:induction false} PayloadAccess(vm: Vm, payload: seq<byte>, o: nat)
    requires Ready(vm, NumPages(|payload|)) && o < |payload|
    ensures var m := AfterDownload(vm, payload).0;
      var at := Translate(m, 0xffff_9000_0000_0000 + o);
      at.Access? && at.writeable && at.executable && ByteAt(m.mem, at.phys / 4096, at.phys % 4096) == payload[o]
  {
    hide *;
    var pages, v := NumPages(|payload|), 0xffff_9000_0000_0000 + o;
    var grow := [Grow(pages, RW)];
    var blocks := PayloadInMemory(vm, pages, payload);
    var m := AfterDownload(vm, payload).0;
    AfterDownloadIs(vm, payload);
    GrownInv(vm, m, blocks);
    SmallHeap(m, blocks);
    SizeSmall(m, blocks, |payload|);
    PayloadPages(|payload|, o);
    GrowOnly(pages);
    ReadyIs(vm, pages);
    var blocks' := GrownAt(vm, grow);
    var (g, next) := RunActions(vm, HEAP_START, PollStores() + grow);
    FromFirst(payload);
    StoresKeepWalks(vm, g, blocks', next, payload, 0);
    RunActionsJoin(vm, HEAP_START, PollStores() + grow, Stores(HEAP_START, payload));
    Together(grow, payload);
    PagesFlags(vm, pages, v);
    TranslateIsWalk(m, v);
    HeldByte(g, m, payload, o);
  }

  lemma {:induction false} AfterDownloadIs(vm: Vm, payload: seq<byte>)
    ensures AfterDownload(vm, payload) == Downloaded(vm, NumPages(|payload|), payload)
    ensures Downloaded(vm, NumPages(|payload|), payload)
         == RunActions(vm, HEAP_START, PollStores() + ([Grow(NumPages(|payload|), RW)] + Stores(HEAP_START, payload)))
  {
  }

  lemma {:induction false} FromFirst(payload: seq<byte>)
    ensures payload[0..] == payload && HEAP_START + 0 == HEAP_START == 0xffff_9000_0000_0000
  {
  }

  lemma {:induction false} Together(grow: seq<Action>, payload: seq<byte>)
    ensures PollStores() + (grow + Stores(HEAP_START, payload)) == PollStores() + grow + Stores(HEAP_START, payload)
  {
    hide PollStores, Stores;
  }

  lemma {:induction false} HeldByte(g: Vm, m: Vm, payload: seq<byte>, o: nat)
    requires Holds(m, payload, |payload|) && o < |payload| && SameWalks(g, m)
    requires var w := Walk(g.mem, g.root, 0xffff_9000_0000_0000 + o); w.Mapped? && w.flags == Flags(0x83, 0)
    ensures var v := 0xffff_9000_0000_0000 + o;
      var at := AsAccess(Walk(m.mem, m.root, v), v);
      at.Access? && at.writeable && at.executable && ByteAt(m.mem, at.phys / 4096, at.phys % 4096) == payload[o]
  {
    hide Walk, ByteAt;
    var v := 0xffff_9000_0000_0000 + o;
    assert LoadByte(m, HEAP_START + o) == Some(payload[o]);
    var frame := Walk(m.mem, m.root, v).frame;
    assert (4096 * frame + v % 4096) / 4096 == frame && (4096 * frame + v % 4096) % 4096 == v % 4096;
  }
}
