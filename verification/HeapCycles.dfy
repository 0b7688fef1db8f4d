/** Workload cycles: growth and writes by the workload, then the reset; and runs of cycles. */
module HeapCycles {
  import opened Bytes
  import opened Numbers
  import opened Wrappers
  import opened Sets
  import opened PmmSpec
  import opened Paging
  import opened PageTree
  import opened VmSpec
  import opened VmProofs
  import opened VmRange
  import opened HeapSpec
  import opened HeapProofs
  import opened HeapRuns
  import opened VirtualMemory
  import opened KernelApi
  import opened FirstFit
  import opened HeapPlacement
  import opened Spared

  // What happens to memory between two resets: the kernel or the workload grows the heap, and
  // the kernel, the download or the workload stores bytes.
  datatype Action = Grow(pages: nat, flags: Flags) | Write(v: nat, b: byte)

  function Act(vm: Vm, next: nat, action: Action): (Vm, nat) {
    match action
    case Grow(n, flags) => AllocHuge(vm, next, n, flags)
    case Write(v, b) => (StoreByte(vm, v, b), next)
  }

  function RunActions(vm: Vm, next: nat, actions: seq<Action>): (Vm, nat)
    decreases |actions|
  {
    if actions == [] then (vm, next)
    else
      var (vm', next') := Act(vm, next, actions[0]);
      RunActions(vm', next', actions[1..])
  }

  // Bytes stored one after another from v on.
  function Stores(v: nat, bytes: seq<byte>): seq<Action>
    decreases |bytes|
  {
    if bytes == [] then [] else [Write(v, bytes[0])] + Stores(v + 1, bytes[1..])
  }

  lemma {:induction false} RunActionsJoin(vm: Vm, next: nat, a: seq<Action>, b: seq<Action>)
    ensures RunActions(vm, next, a + b) ==
      var (vm', next') := RunActions(vm, next, a); RunActions(vm', next', b)
    decreases |a|
  {
    hide Act;
    if a == [] {
      assert a + b == b;
    } else {
      assert (a + b)[0] == a[0] && (a + b)[1..] == a[1..] + b;
      var (vm', next') := Act(vm, next, a[0]);
      RunActionsJoin(vm', next', a[1..], b);
    }
  }

  lemma {:induction false} StoresStay(vm: Vm, next: nat, v: nat, bytes: seq<byte>)
    ensures RunActions(vm, next, Stores(v, bytes)).1 == next
    decreases |bytes|
  {
    hide StoreByte;
    if bytes != [] {
      assert Stores(v, bytes)[0] == Write(v, bytes[0]) && Stores(v, bytes)[1..] == Stores(v + 1, bytes[1..]);
      StoresStay(StoreByte(vm, v, bytes[0]), next, v + 1, bytes[1..]);
    }
  }

  // output_buffer = NULL and output_size = 0, at the start of a turn of the kernel's loop.
  function PollStores(): seq<Action> {
    Stores(KERNEL_API_ADDRESS + OUTPUT_OFFSET, seq(16, i => 0 as byte))
  }

  // One turn of the kernel's loop: its own stores, actions on an empty heap, then the reset.
  function Cycle(vm: Vm, actions: seq<Action>): Vm {
    var (vm', next) := RunActions(vm, HEAP_START, PollStores() + actions);
    ResetHeap(vm', next)
  }

  // Stores stay in the pages the heap has at the time, and in the API page.
  predicate InHeap(pages: nat, actions: seq<Action>)
    decreases |actions|
  {
    actions == [] ||
    match actions[0]
    case Grow(n, _) => InHeap(pages + n, actions[1..])
    case Write(v, _) => (HeapIndex(v) < pages || OnApiPage(v)) && InHeap(pages, actions[1..])
  }

  // Pages a list of actions adds.
  function Total(actions: seq<Action>): nat
    decreases |actions|
  {
    if actions == [] then 0
    else Total(actions[1..]) + if actions[0].Grow? then actions[0].pages else 0
  }

  // ---- inside a cycle ------------------------------------------------------------------------------

  // vm is what start, whose heap was empty, has become with the heap on these blocks, the ones first
  // fit names.
  ghost predicate Grown(start: Vm, vm: Vm, blocks: seq<nat>) {
    && ApiOwned(start) && HeapInv(vm, blocks) && OnLowest(start, vm, blocks)
    && GrewButApi(start, vm, HeapPlaces(0, |blocks|), BlockUnion(blocks))
    && forall w :: HeapIndex(w) >= |blocks| ==> Walk(vm.mem, vm.root, w) == Walk(start.mem, start.root, w)
  }

  lemma {:induction false} GrownApi(start: Vm, vm: Vm, blocks: seq<nat>)
    requires Grown(start, vm, blocks)
    ensures ApiOwned(vm)
  {
    hide GrewButApi, Walk, HeapIndex, OnApiPage, IsTable, OnLowest;
    ButApiIs(start, vm, HeapPlaces(0, |blocks|), BlockUnion(blocks));
    CapSmall(vm);
    forall w | OnApiPage(w)
      ensures Walk(vm.mem, vm.root, w) == Mapped(API_FRAME, RW)
    {
      ApiOffHeap(w);
    }
  }

  lemma {:induction false} PlacesJoin(k: nat, m: nat, n: nat)
    ensures HeapPlaces(k, m) + HeapPlaces(k + m, n) == HeapPlaces(k, m + n)
    decreases m
  {
    hide PathPlaces, HeapAddr;
    if m > 0 {
      PlacesJoin(k + 1, m - 1, n);
    }
  }

  lemma {:induction false} UnionJoin(blocks: seq<nat>, k: nat)
    requires k <= |blocks|
    ensures BlockUnion(blocks) == BlockUnion(blocks[..k]) + BlockUnion(blocks[k..])
  {
    hide BlockFrames;
    forall f
      ensures f in BlockUnion(blocks) ==> f in BlockUnion(blocks[..k]) + BlockUnion(blocks[k..])
    {
      if f in BlockUnion(blocks) {
        var i :| 0 <= i < |blocks| && f in BlockFrames(blocks[i]);
        if i < k {
          assert f in BlockFrames(blocks[..k][i]);
        } else {
          assert f in BlockFrames(blocks[k..][i - k]);
        }
      }
    }
    forall f | f in BlockUnion(blocks[..k])
      ensures f in BlockUnion(blocks)
    {
      var i :| 0 <= i < k && f in BlockFrames(blocks[..k][i]);
      assert f in BlockFrames(blocks[i]);
    }
    forall f | f in BlockUnion(blocks[k..])
      ensures f in BlockUnion(blocks)
    {
      var i :| 0 <= i < |blocks| - k && f in BlockFrames(blocks[k..][i]);
      assert f in BlockFrames(blocks[i + k]);
    }
  }

  lemma {:induction false} GrownMore(start: Vm, a: Vm, c: Vm, blocks: seq<nat>, blocks': seq<nat>, flags: Flags)
    requires Grown(start, a, blocks) && HeapInv(c, blocks') && PagesAdded(a, c, blocks, blocks', flags) && ApiKept(a, c)
    requires var ms, g := TablesFor(a, {}, |blocks|, |blocks'| - |blocks|), GeometryOf(a.pmm);
      && blocks' == blocks + Blocks(a.pmm.free, g, ms)
      && Suffice(a.pmm.free, g, ms) && c.pmm.free == AfterPages(a.pmm.free, g, ms)
    ensures Grown(start, c, blocks')
  {
    hide HeapInvFrom, Grew, GrewButApi, IsTable, Walk, BlockUnion, HeapPlaces, Zeroed, HeapIndex, OnLowest, TablesFor,
         Blocks, Suffice, AfterPages;
    var k, n := |blocks|, |blocks'| - |blocks|;
    assert blocks'[..k] == blocks;
    UnionJoin(blocks', k);
    PlacesJoin(0, k, n);
    GrownApi(start, a, blocks);
    GrewIsButApi(a, c, HeapPlaces(k, n), BlockUnion(blocks'[k..]));
    ButApiTrans(start, a, c, HeapPlaces(0, k), HeapPlaces(k, n), BlockUnion(blocks), BlockUnion(blocks'[k..]));
    ButApiTables(start, c, HeapPlaces(0, k + n), BlockUnion(blocks'));
    LowestMore(start, a, c, blocks, n);
  }

  lemma {:induction false} ButApiTables(a: Vm, b: Vm, s: set<Pos>, x: set<nat>)
    requires ApiIsData(a) && GrewButApi(a, b, s, x)
    ensures TablesAdded(a, b, s)
  {
    hide GrewButApi, IsTable;
    ButApiIs(a, b, s, x);
  }

  // Frames a store may change.
  function Open(blocks: seq<nat>): set<nat> {
    BlockUnion(blocks) + {API_FRAME}
  }

  // A store in the heap hits a frame of a heap block, one in the API page its frame: no table, no
  // translation and no free frame is touched.
  lemma {:induction false} WriteEffect(vm: Vm, blocks: seq<nat>, v: nat, b: byte)
    requires HeapInv(vm, blocks) && ApiOwned(vm) && (HeapIndex(v) < |blocks| || OnApiPage(v))
    ensures SameBut(vm, StoreByte(vm, v, b), Open(blocks))
  {
    hide VmInv, IsTable, StoreByte, Walk, OnApiPage;
    if HeapIndex(v) < |blocks| {
      var k := HeapIndex(v);
      var f := 512 * blocks[k] + Index(v, 0);
      assert BlockOwned(vm, blocks[k]);
      SlotInBlock(blocks[k], v);
      assert f in BlockUnion(blocks);
      StoreEffect(vm, v, b, f);
      SameButMore(vm, StoreByte(vm, v, b), {f}, Open(blocks));
    } else {
      StoreEffect(vm, v, b, API_FRAME);
      SameButMore(vm, StoreByte(vm, v, b), {API_FRAME}, Open(blocks));
    }
  }

  lemma {:induction false} SlotInBlock(b: nat, v: nat)
    ensures 512 * b + Index(v, 0) in BlockFrames(b)
  {
  }

  lemma {:induction false} SameButMore(a: Vm, b: Vm, x: set<nat>, y: set<nat>)
    requires SameBut(a, b, x) && x <= y
    ensures SameBut(a, b, y)
  {
  }

  // The invariant does not notice such stores.
  lemma {:induction false} SameShapeInv(a: Vm, c: Vm, blocks: seq<nat>)
    requires HeapInv(a, blocks) && ApiOwned(a) && SameBut(a, c, Open(blocks))
    ensures HeapInv(c, blocks)
  {
    hide BlockUnion, BlockFrames, Walk, OnApiPage;
    assert forall p :: At(c, p) == At(a, p);
    SameShapeVmInv(a, c, blocks);
    assert HeapWalks(c, blocks, 0);
    forall k | 0 <= k < |blocks|
      ensures BlockOwned(c, blocks[k])
    {
      assert BlockOwned(a, blocks[k]);
      forall f | f in BlockFrames(blocks[k])
        ensures !IsTable(c.mem, c.root, f)
      {
        SameTablesIsTable(a.mem, c.mem, a.root, f);
      }
    }
  }

  lemma {:induction false} UnionNoTable(vm: Vm, blocks: seq<nat>, f: nat)
    requires HeapInv(vm, blocks) && f in BlockUnion(blocks)
    ensures !IsTable(vm.mem, vm.root, f) && f !in vm.pmm.free
  {
    hide BlockFrames, IsTable;
    var i :| 0 <= i < |blocks| && f in BlockFrames(blocks[i]);
    assert BlockOwned(vm, blocks[i]);
  }

  lemma {:induction false} SameShapeVmInv(a: Vm, c: Vm, blocks: seq<nat>)
    requires HeapInv(a, blocks) && ApiOwned(a) && SameBut(a, c, Open(blocks))
    ensures VmInv(c)
  {
    hide BlockUnion, Walk, HeapIndex, OnApiPage;
    assert forall p :: At(c, p) == At(a, p);
    forall p, i | At(c, p).Some?
      ensures EntryOk(Depth(p), Lookup(c.mem, At(c, p).value, i))
    {
      var t := At(a, p).value;
      assert TableAt(a.mem, a.root, p) == Some(t);
      assert IsTable(a.mem, a.root, t);
      if t in BlockUnion(blocks) {
        UnionNoTable(a, blocks, t);
        assert false;
      }
      assert EntryOk(Depth(p), Lookup(a.mem, t, i));
    }
    forall p, q | TableAt(c.mem, c.root, p).Some? && TableAt(c.mem, c.root, p) == TableAt(c.mem, c.root, q)
      ensures p == q
    {
      assert At(a, p) == At(a, q);
    }
  }

  lemma {:induction false} GrownWritten(start: Vm, vm: Vm, blocks: seq<nat>, v: nat, b: byte)
    requires Grown(start, vm, blocks) && (HeapIndex(v) < |blocks| || OnApiPage(v))
    ensures Grown(start, StoreByte(vm, v, b), blocks)
  {
    hide HeapInvFrom, BlockUnion, HeapPlaces, HeapIndex, Walk, TableAt, GrewButApi, IsTable, OnApiPage, StoreByte, OnLowest;
    var c := StoreByte(vm, v, b);
    GrownApi(start, vm, blocks);
    WriteEffect(vm, blocks, v, b);
    SameShapeInv(vm, c, blocks);
    ButApiData(start, vm, c, HeapPlaces(0, |blocks|), BlockUnion(blocks));
    LowestWritten(start, vm, c, blocks);
  }

  lemma {:induction false} LowestWritten(start: Vm, vm: Vm, c: Vm, blocks: seq<nat>)
    requires OnLowest(start, vm, blocks) && SameBut(vm, c, Open(blocks))
    ensures OnLowest(start, c, blocks)
  {
    hide HeapPlaces, Walk, BlockUnion, TablesFor, Blocks, Suffice, AfterPages;
    assert forall p :: At(c, p) == At(vm, p);
  }

  // Any legal actions keep the heap sound.
  lemma {:induction false} RunActionsCorrect(start: Vm, vm: Vm, blocks: seq<nat>,
                                             actions: seq<Action>) returns (blocks': seq<nat>)
    requires Grown(start, vm, blocks) && InHeap(|blocks|, actions) && Room(vm, |blocks|, Total(actions))
    requires Spares(start, 0, |blocks| + Total(actions))
    ensures |blocks'| == |blocks| + Total(actions)
    ensures var (c, next) := RunActions(vm, HeapAddr(|blocks|), actions);
      Grown(start, c, blocks') && next == HeapAddr(|blocks'|)
    decreases |actions|
  {
    hide Grown, Room, StoreByte, AllocFrom, HeapIndex, OnApiPage, Spares;
    if actions == [] {
      blocks' := blocks;
    } else {
      var rest := actions[1..];
      match actions[0]
      case Grow(n, flags) =>
        RoomSplit(vm, |blocks|, n, Total(rest));
        var more := GrowCorrect(start, vm, blocks, n, flags, Total(rest));
        AlignedNext(|blocks|);
        assert HeapAddr(|blocks|) + n * BLOCK_SIZE == HeapAddr(|more|);
        blocks' := RunActionsCorrect(start, AllocFrom(vm, HeapAddr(|blocks|), n, flags), more, rest);
      case Write(v, b) =>
        GrownWritten(start, vm, blocks, v, b);
        WriteRoom(start, vm, blocks, v, b, Total(rest));
        blocks' := RunActionsCorrect(start, StoreByte(vm, v, b), blocks, rest);
    }
  }

  lemma {:induction false} WriteRoom(start: Vm, vm: Vm, blocks: seq<nat>, v: nat, b: byte, n: nat)
    requires Grown(start, vm, blocks) && (HeapIndex(v) < |blocks| || OnApiPage(v)) && Room(vm, |blocks|, n)
    ensures Room(StoreByte(vm, v, b), |blocks|, n)
  {
    hide HeapInvFrom, GrewButApi, Walk, HeapIndex, OnApiPage, StoreByte, HeapPlaces;
    var c := StoreByte(vm, v, b);
    GrownApi(start, vm, blocks);
    WriteEffect(vm, blocks, v, b);
    assert forall p :: At(c, p) == At(vm, p);
    assert Missing(c, HeapPlaces(|blocks|, n)) == Missing(vm, HeapPlaces(|blocks|, n));
  }

  lemma {:induction false} RoomSplit(vm: Vm, k: nat, m: nat, n: nat)
    requires Room(vm, k, m + n)
    ensures Room(vm, k, m)
  {
    hide HeapPlaces;
    PlacesJoin(k, m, n);
    SubsetSize(Missing(vm, HeapPlaces(k, m)), Missing(vm, HeapPlaces(k, m + n)));
  }

  lemma {:induction false} GrowCorrect(start: Vm, vm: Vm, blocks: seq<nat>, n: nat, flags: Flags,
                                       rest: nat) returns (blocks': seq<nat>)
    requires Grown(start, vm, blocks) && Room(vm, |blocks|, n) && Room(vm, |blocks|, n + rest)
    requires Spares(start, 0, |blocks| + n + rest)
    ensures |blocks'| == |blocks| + n
    ensures var c := AllocFrom(vm, HeapAddr(|blocks|), n, flags);
      Grown(start, c, blocks') && Room(c, |blocks'|, rest)
  {
    hide *;
    GrownInv(start, vm, blocks);
    AllocFromCorrect(vm, blocks, n, flags);
    blocks' := blocks + Blocks(vm.pmm.free, GeometryOf(vm.pmm), TablesFor(vm, {}, |blocks|, n));
    var c := AllocFrom(vm, HeapAddr(|blocks|), n, flags);
    SparesSplit(start, 0, |blocks| + n, rest);
    SparesAfter(start, vm, blocks, n);
    KeptIs(vm, c, |blocks|, n);
    GrownMore(start, vm, c, blocks, blocks', flags);
    AddedGrew(vm, c, blocks, blocks', flags);
    RoomAfter(vm, c, |blocks|, blocks'[|blocks|..], rest);
  }

  lemma {:induction false} KeptIs(vm: Vm, c: Vm, k: nat, n: nat)
    requires Spares(vm, k, n) && c.pmm.free == AfterPages(vm.pmm.free, GeometryOf(vm.pmm), TablesFor(vm, {}, k, n))
    ensures ApiKept(vm, c)
  {
  }

  lemma {:induction false} GrownInv(start: Vm, vm: Vm, blocks: seq<nat>)
    requires Grown(start, vm, blocks)
    ensures HeapInv(vm, blocks) && OnLowest(start, vm, blocks)
  {
  }

  lemma {:induction false} AddedGrew(a: Vm, c: Vm, blocks: seq<nat>, blocks': seq<nat>, flags: Flags)
    requires HeapInv(c, blocks') && PagesAdded(a, c, blocks, blocks', flags)
    ensures Grew(a, c, HeapPlaces(|blocks|, |blocks'| - |blocks|), BlockUnion(blocks'[|blocks|..])) && VmInv(c)
  {
  }

  lemma {:induction false} RoomAfter(a: Vm, c: Vm, k: nat, added: seq<nat>, rest: nat)
    requires Grew(a, c, HeapPlaces(k, |added|), BlockUnion(added)) && VmInv(c)
    requires Room(a, k, |added| + rest)
    ensures Room(c, k + |added|, rest)
  {
    hide HeapPlaces, BlockUnion, WholeBlocks, BlockFrames, Missing, IsTree, Added;
    var n := |added|;
    PlacesJoin(k, n, rest);
    InvIsTree(c);
    GrewMissing(a, c, HeapPlaces(k, n), BlockUnion(added), HeapPlaces(k + n, rest));
    GrewSize(a, c, HeapPlaces(k, n), BlockUnion(added));
    var limit := a.pmm.bytes / 64;
    UnionLess(a.pmm.free, limit, added);
    FramesLess(a.pmm.free - BlockUnion(added), limit, Added(a, c, HeapPlaces(k, n)));
  }

  // Claiming n blocks costs at most n wholly free ones.
  lemma {:induction false} UnionLess(free: set<nat>, limit: nat, blocks: seq<nat>)
    ensures |WholeBlocks(free - BlockUnion(blocks), limit)| >= |WholeBlocks(free, limit)| - |blocks|
  {
    if blocks == [] {
      assert free - BlockUnion(blocks) == free;
    } else {
      hide WholeBlocks, BlockFrames, BlockUnion;
      var front, b := blocks[..|blocks| - 1], blocks[|blocks| - 1];
      UnionLess(free, limit, front);
      assert blocks == front + [b];
      UnionLast(front, b);
      var less := free - BlockUnion(front);
      assert less - BlockFrames(b) == free - BlockUnion(blocks);
      OneBlockLess(less, limit, b);
      SubsetSize(WholeBlocks(less, limit) - {b}, WholeBlocks(less - BlockFrames(b), limit));
    }
  }

  // ---- a whole cycle -------------------------------------------------------------------------------

  lemma {:induction false} GrownStart(start: Vm)
    requires HeapInv(start, []) && ApiOwned(start)
    ensures Grown(start, start, [])
  {
    GrewRefl(start);
    GrewIsButApi(start, start, {}, {});
    assert BlockUnion([]) == {};
    LowestNone(start);
  }

  // What was taken for the heap and given back again cancels; only new tables remain.
  lemma {:induction false} GrewThenGave(a: Vm, m: Vm, c: Vm, s: set<Pos>, x: set<nat>)
    requires ApiIsData(a) && GrewButApi(a, m, s, x) && Gave(m, c, x)
    ensures GrewButApi(a, c, s, {})
  {
    hide Walk;
    ButApiIs(a, m, s, x);
    PatchedSame(a, m);
    assert Patched(a, c) == Patched(a, m);
    GaveBack(Patched(a, m), m, c, s, x);
  }

  lemma {:induction false} GaveBack(a: Vm, m: Vm, c: Vm, s: set<Pos>, x: set<nat>)
    requires Grew(a, m, s, x) && Gave(m, c, x)
    ensures Grew(a, c, s, {})
  {
    assert Added(a, c, s) == Added(a, m, s);
    forall f | 0 <= f < |a.mem| && !IsTable(a.mem, a.root, f) && f !in a.pmm.free
      ensures c.mem[f] == a.mem[f]
    {
      StaysNoTable(a, m, s, x, f);
    }
  }

  lemma {:induction false} WalksRestored(start: Vm, m: Vm, c: Vm, blocks: seq<nat>)
    requires HeapInv(start, []) && Grown(start, m, blocks)
    requires forall w :: Walk(c.mem, c.root, w) == if HeapIndex(w) < |blocks| then Unmapped else Walk(m.mem, m.root, w)
    ensures SameWalks(start, c)
  {
    hide VmInv, Walk, BlockOwned, HeapPlaces, BlockUnion, HeapIndex, TableAt, GrewButApi, OnApiPage, OnLowest;
    ButApiIs(start, m, HeapPlaces(0, |blocks|), BlockUnion(blocks));
    assert Cap(m) == Cap(start);
    forall w
      ensures Walk(c.mem, c.root, w) == Walk(start.mem, start.root, w)
    {
      if HeapIndex(w) < |blocks| {
        assert HeapIndex(w) < Cap(start);
      }
    }
  }

  // Stores that are all legal may precede any actions.
  lemma {:induction false} StoresFirst(v: nat, bytes: seq<byte>, pages: nat, rest: seq<Action>)
    requires forall w :: v <= w < v + |bytes| ==> HeapIndex(w) < pages || OnApiPage(w)
    ensures InHeap(pages, Stores(v, bytes) + rest) <==> InHeap(pages, rest)
    ensures Total(Stores(v, bytes) + rest) == Total(rest)
    decreases |bytes|
  {
    hide HeapIndex, OnApiPage;
    if bytes == [] {
      assert Stores(v, bytes) + rest == rest;
    } else {
      var all := Stores(v, bytes) + rest;
      assert all[0] == Write(v, bytes[0]) && all[1..] == Stores(v + 1, bytes[1..]) + rest;
      StoresFirst(v + 1, bytes[1..], pages, rest);
    }
  }

  // Stores to the API page.
  lemma {:induction false} ApiStoresFirst(offset: nat, bytes: seq<byte>, pages: nat, rest: seq<Action>)
    requires offset + |bytes| <= 4096
    ensures InHeap(pages, Stores(KERNEL_API_ADDRESS + offset, bytes) + rest) <==> InHeap(pages, rest)
    ensures Total(Stores(KERNEL_API_ADDRESS + offset, bytes) + rest) == Total(rest)
  {
    hide HeapIndex, OnApiPage;
    forall w | KERNEL_API_ADDRESS + offset <= w < KERNEL_API_ADDRESS + offset + |bytes|
      ensures OnApiPage(w)
    {
      ApiAddress(w - KERNEL_API_ADDRESS);
    }
    StoresFirst(KERNEL_API_ADDRESS + offset, bytes, pages, rest);
  }

  lemma {:induction false} PollStoresFirst(rest: seq<Action>)
    ensures InHeap(0, PollStores() + rest) <==> InHeap(0, rest)
    ensures Total(PollStores() + rest) == Total(rest)
  {
    ApiStoresFirst(OUTPUT_OFFSET, seq(16, i => 0 as byte), 0, rest);
  }

  // Between two turns of the loop: an empty heap, and the API page on a frame that is no table.
  ghost predicate Idle(vm: Vm) {
    HeapInv(vm, []) && ApiOwned(vm)
  }

  // Heaps of up to n pages find their blocks and their tables, and leave the API frame alone.
  ghost predicate Ready(vm: Vm, n: nat) {
    Idle(vm) && Room(vm, 0, n) && Spares(vm, 0, n)
  }

  // A cycle of at most n pages keeps every translation and takes nothing but the frames of tables
  // that were missing: those of the PDPTs and PDs its heap reached. It can be repeated.
  lemma {:induction false} CycleCorrect(start: Vm, actions: seq<Action>, n: nat)
    requires Ready(start, n) && InHeap(0, actions) && Total(actions) <= n
    ensures var end := Cycle(start, actions);
      Ready(end, n) && GrewButApi(start, end, HeapPlaces(0, Total(actions)), {}) && SameWalks(start, end)
  {
    hide *;
    ReadyIs(start, n);
    ReadyFewer(start, Total(actions), n);
    var blocks := GrownAt(start, actions);
    var m := RunActions(start, HEAP_START, PollStores() + actions).0;
    CycleEnds(start, m, actions, blocks);
    GrownInv(start, m, blocks);
    ResetHeapCorrect(m, blocks);
    var end := ResetHeap(m, HeapAddr(|blocks|));
    GrownGrew(start, m, blocks);
    GrewThenGave(start, m, end, HeapPlaces(0, |blocks|), BlockUnion(blocks));
    WalksRestored(start, m, end, blocks);
    IdleAgain(start, end, blocks);
    RoomKept(start, end, |blocks|, n);
    ButApiTables(start, end, HeapPlaces(0, |blocks|), {});
    GaveIs(m, end, BlockUnion(blocks));
    SparesAgain(start, m, end, blocks, n);
    ReadyIs(end, n);
  }

  lemma {:induction false} ReadyIs(vm: Vm, n: nat)
    ensures Ready(vm, n) <==> HeapInv(vm, []) && ApiOwned(vm) && Room(vm, 0, n) && Spares(vm, 0, n)
    ensures Ready(vm, n) ==> Idle(vm) && ApiIsData(vm)
  {
  }

  lemma {:induction false} ReadyFewer(vm: Vm, m: nat, n: nat)
    requires Ready(vm, n) && m <= n
    ensures Ready(vm, m)
  {
    hide Idle, Room, Spares;
    RoomBelow(vm, m, n);
    SparesFewer(vm, m, n);
  }

  // Inside a cycle.
  lemma {:induction false} GrownAt(start: Vm, actions: seq<Action>) returns (blocks: seq<nat>)
    requires Ready(start, Total(actions)) && InHeap(0, actions)
    ensures |blocks| == Total(actions)
    ensures RunActions(start, HEAP_START, PollStores() + actions).1 == HeapAddr(|blocks|)
    ensures Grown(start, RunActions(start, HEAP_START, PollStores() + actions).0, blocks)
  {
    hide *;
    ReadyIs(start, Total(actions));
    GrownStart(start);
    HeapStart();
    PollStoresFirst(actions);
    blocks := RunActionsCorrect(start, start, [], PollStores() + actions);
  }

  lemma {:induction false} HeapStart()
    ensures HeapAddr(0) == HEAP_START
  {
  }

  lemma {:induction false} CycleEnds(start: Vm, m: Vm, actions: seq<Action>, blocks: seq<nat>)
    requires RunActions(start, HEAP_START, PollStores() + actions) == (m, HeapAddr(|blocks|))
    ensures Cycle(start, actions) == ResetHeap(m, HeapAddr(|blocks|))
  {
    hide RunActions, ResetHeap, PollStores, HeapAddr;
  }

  lemma {:induction false} GrownGrew(start: Vm, vm: Vm, blocks: seq<nat>)
    requires Grown(start, vm, blocks)
    ensures GrewButApi(start, vm, HeapPlaces(0, |blocks|), BlockUnion(blocks)) && ApiIsData(start)
  {
  }

  lemma {:induction false} GaveIs(a: Vm, c: Vm, x: set<nat>)
    requires Gave(a, c, x)
    ensures c.pmm.free == a.pmm.free + x
  {
  }

  lemma {:induction false} IdleAgain(start: Vm, end: Vm, blocks: seq<nat>)
    requires ApiOwned(start) && HeapInv(end, []) && GrewButApi(start, end, HeapPlaces(0, |blocks|), {}) && SameWalks(start, end)
    ensures ApiOwned(end)
  {
    hide HeapInvFrom, Walk, HeapPlaces, GrewButApi, IsTable, OnApiPage;
    ButApiIs(start, end, HeapPlaces(0, |blocks|), {});
  }

  // ---- runs of cycles ------------------------------------------------------------------------------

  function RunCycles(vm: Vm, cycles: seq<seq<Action>>): Vm
    decreases |cycles|
  {
    if cycles == [] then vm else RunCycles(Cycle(vm, cycles[0]), cycles[1..])
  }

  // The furthest a heap reached in any of the cycles.
  function Peak(cycles: seq<seq<Action>>): nat
    decreases |cycles|
  {
    if cycles == [] then 0 else Max(Total(cycles[0]), Peak(cycles[1..]))
  }

  predicate AllInHeap(cycles: seq<seq<Action>>) {
    forall i :: 0 <= i < |cycles| ==> InHeap(0, cycles[i])
  }

  lemma {:induction false} PlacesWithin(m: nat, n: nat)
    requires m <= n
    ensures HeapPlaces(0, m) <= HeapPlaces(0, n)
  {
    PlacesJoin(0, m, n - m);
  }

  lemma {:induction false} PlacesMax(m: nat, n: nat)
    ensures HeapPlaces(0, m) + HeapPlaces(0, n) == HeapPlaces(0, Max(m, n))
  {
    PlacesWithin(m, Max(m, n));
    PlacesWithin(n, Max(m, n));
  }

  lemma {:induction false} RoomBelow(vm: Vm, m: nat, n: nat)
    requires Room(vm, 0, n) && m <= n
    ensures Room(vm, 0, m)
  {
    RoomSplit(vm, 0, m, n - m);
  }

  // Tables a cycle adds are no longer missing: room for n pages stays room for n pages.
  lemma {:induction false} RoomKept(a: Vm, c: Vm, m: nat, n: nat)
    requires ApiIsData(a) && Room(a, 0, n) && m <= n && HeapInv(c, []) && GrewButApi(a, c, HeapPlaces(0, m), {})
    ensures Room(c, 0, n)
  {
    hide HeapPlaces, WholeBlocks, Missing, IsTree, Added, GrewButApi, IsTable, Walk;
    InvIsTree(c);
    PlacesMax(m, n);
    ButApiIs(a, c, HeapPlaces(0, m), {});
    ButApiMissing(a, c, HeapPlaces(0, m), {}, HeapPlaces(0, n));
    ButApiSize(a, c, HeapPlaces(0, m), {});
    assert a.pmm.free - {} == a.pmm.free;
    FramesLess(a.pmm.free, a.pmm.bytes / 64, Added(a, c, HeapPlaces(0, m)));
  }

  lemma {:induction false} SameWalksTrans(a: Vm, b: Vm, c: Vm)
    requires SameWalks(a, b) && SameWalks(b, c)
    ensures SameWalks(a, c)
  {
  }

  // However many cycles run, none of them larger than n pages: every allocation in them
  // succeeds, every translation is what it was, and all that is gone from the free frames are
  // the tables of the largest heap.
  lemma {:induction false} RunCyclesCorrect(start: Vm, cycles: seq<seq<Action>>, n: nat)
    requires Ready(start, n) && AllInHeap(cycles) && Peak(cycles) <= n
    ensures var end := RunCycles(start, cycles);
      Ready(end, n) && GrewButApi(start, end, HeapPlaces(0, Peak(cycles)), {}) && SameWalks(start, end)
    decreases |cycles|
  {
    hide HeapPlaces, GrewButApi, Cycle, InHeap, SameWalks, Ready, ApiIsData;
    ReadyIs(start, n);
    if cycles == [] {
      NoCycles(start);
    } else {
      var m, rest := Cycle(start, cycles[0]), cycles[1..];
      CycleCorrect(start, cycles[0], n);
      RunCyclesCorrect(m, rest, n);
      PlacesMax(Total(cycles[0]), Peak(rest));
      ButApiThen(start, m, RunCycles(m, rest), HeapPlaces(0, Total(cycles[0])), HeapPlaces(0, Peak(rest)),
                 HeapPlaces(0, Peak(cycles)));
      SameWalksTrans(start, m, RunCycles(m, rest));
    }
  }

  lemma {:induction false} NoCycles(start: Vm)
    requires ApiIsData(start)
    ensures GrewButApi(start, start, HeapPlaces(0, 0), {}) && SameWalks(start, start)
  {
    GrewRefl(start);
    GrewIsButApi(start, start, {}, {});
  }

  // The state in the midst of a cycle after others.
  function Working(start: Vm, cycles: seq<seq<Action>>, actions: seq<Action>): Vm {
    RunActions(RunCycles(start, cycles), HEAP_START, PollStores() + actions).0
  }

  lemma {:induction false} WorkingGrown(start: Vm, cycles: seq<seq<Action>>, actions: seq<Action>, n: nat) returns (blocks: seq<nat>)
    requires Ready(start, n) && AllInHeap(cycles) && Peak(cycles) <= n && InHeap(0, actions) && Total(actions) <= n
    ensures |blocks| == Total(actions)
    ensures var m := RunCycles(start, cycles);
      && Ready(m, n) && GrewButApi(start, m, HeapPlaces(0, Peak(cycles)), {}) && SameWalks(start, m)
      && Grown(m, Working(start, cycles, actions), blocks)
  {
    hide Ready, GrewButApi, SameWalks, Grown, RunCycles, RunActions, PollStores, InHeap;
    RunCyclesCorrect(start, cycles, n);
    ReadyFewer(RunCycles(start, cycles), Total(actions), n);
    blocks := GrownAt(RunCycles(start, cycles), actions);
  }

  // A cycle that reaches no further than an earlier one leaves the free frames exactly as it
  // found them.
  lemma {:induction false} SteadyCycle(start: Vm, cycles: seq<seq<Action>>, actions: seq<Action>, n: nat)
    requires Ready(start, n) && AllInHeap(cycles) && Peak(cycles) <= n
    requires InHeap(0, actions) && Total(actions) <= Peak(cycles)
    ensures var m := RunCycles(start, cycles);
      var end := Cycle(m, actions);
      && end.pmm.free == m.pmm.free && end.pmm.total == m.pmm.total && end.pmm.bytes == m.pmm.bytes
      && (forall p :: At(end, p) == At(m, p))
  {
    hide Ready, HeapPlaces, Cycle, Walk, TableAt, GrewButApi, IsTable, HeapInvFrom;
    ReadyIs(start, n);
    RunCyclesCorrect(start, cycles, n);
    var m := RunCycles(start, cycles);
    ReadyIs(m, n);
    CycleCorrect(m, actions, n);
    PlacesWithin(Total(actions), Peak(cycles));
    ButApiIs(start, m, HeapPlaces(0, Peak(cycles)), {});
    ButApiIs(m, Cycle(m, actions), HeapPlaces(0, Total(actions)), {});
    assert Missing(m, HeapPlaces(0, Total(actions))) == {};
    assert Added(m, Cycle(m, actions), HeapPlaces(0, Total(actions))) == {};
  }
}
