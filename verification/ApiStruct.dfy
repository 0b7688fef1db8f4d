/** What the API struct holds when a workload starts. */
module ApiStruct {
  import opened Bytes
  import opened Wrappers
  import opened PmmSpec
  import opened MemoryMap
  import opened Paging
  import opened PageTree
  import opened VmSpec
  import opened VmProofs
  import opened HeapSpec
  import opened HeapProofs
  import opened HeapRuns
  import opened Words
  import opened VirtualMemory
  import opened KernelApi
  import opened FirstFit
  import opened HeapPlacement
  import opened Spared
  import opened HeapCycles
  import opened Boot
  import opened BootFrames
  import opened ApiExact
  import opened ApiRuns
  import opened HeapCounts

  // ---- growth writes only what it takes --------------------------------------------------------------

  // Frames that hold no table in b have the contents they had in a.
  ghost predicate OnlyTables(a: Vm, b: Vm) {
    |b.mem| == |a.mem| && forall f :: 0 <= f < |a.mem| && !IsTable(b.mem, b.root, f) ==> b.mem[f] == a.mem[f]
  }

  lemma {:induction false} NextTableWrites(vm: Vm, pos: Pos, t: nat, i: nat)
    requires VmInv(vm) && At(vm, pos) == Some(t) && Depth(pos) < 3 && i < 512
    requires Depth(pos) == 2 ==> !BigLeaf(Lookup(vm.mem, t, i))
    requires At(vm, Child(pos, i)).None? ==> vm.pmm.free != {}
    ensures OnlyTables(vm, NextTable(vm, t, i).0)
  {
    var (b, child) := NextTable(vm, t, i);
    NextTableEffect(vm, pos, t, i);
    if !Present(Lookup(vm.mem, t, i)) {
      FreshFrame(vm);
      assert TableAt(b.mem, b.root, pos) == Some(t) && TableAt(b.mem, b.root, Child(pos, i)) == Some(child);
      assert IsTable(b.mem, b.root, t) && IsTable(b.mem, b.root, child);
      EntryBits(0, 0, ZERO.flags);
    }
  }

  lemma {:induction false} OnlyTablesTrans(a: Vm, b: Vm, c: Vm, s: set<Pos>, x: set<nat>)
    requires OnlyTables(a, b) && OnlyTables(b, c) && Grew(b, c, s, x)
    ensures OnlyTables(a, c)
  {
    hide IsTable;
    forall f | 0 <= f < |a.mem| && !IsTable(c.mem, c.root, f)
      ensures c.mem[f] == a.mem[f]
    {
      StillTable(b, c, s, x, f);
    }
  }

  lemma {:induction false} StillTable(b: Vm, c: Vm, s: set<Pos>, x: set<nat>, f: nat)
    requires Grew(b, c, s, x)
    ensures IsTable(b.mem, b.root, f) ==> IsTable(c.mem, c.root, f)
  {
    if IsTable(b.mem, b.root, f) {
      var p :| TableAt(b.mem, b.root, p) == Some(f);
      assert At(b, p).Some?;
      assert TableAt(c.mem, c.root, p) == Some(f);
    }
  }

  lemma {:induction false} DescendWrites(vm: Vm, t: nat, v: nat, level: nat, stop: nat)
    requires stop <= level < 4 && VmInv(vm) && At(vm, PosOf(v, 3 - level)) == Some(t)
    requires stop == 0 ==> NoHugeLeafAt(vm, v)
    requires Fits(vm, PathPlaces(v, 3 - level, 3 - stop))
    ensures OnlyTables(vm, Descend(vm, t, v, level, stop).0)
    decreases level
  {
    hide Grew, VmInv, Fits, NoHugeLeafAt, Walk, TableAt, Missing, OnlyTables, IsTable;
    if level == stop {
      OnlyTablesRefl(vm);
    } else {
      var d := 3 - level;
      DescendStep(vm, t, v, d, 3 - stop);
      StepWrites(vm, t, v, d, 3 - stop);
      var (b, child) := NextTable(vm, t, Index(v, level));
      DescendWrites(b, child, v, level - 1, stop);
      DescendEffect(b, child, v, level - 1, stop);
      OnlyTablesTrans(vm, b, Descend(b, child, v, level - 1, stop).0, PathPlaces(v, d + 1, 3 - stop), {});
    }
  }

  lemma {:induction false} OnlyTablesRefl(vm: Vm)
    ensures OnlyTables(vm, vm)
  {
  }

  lemma {:induction false} StepWrites(vm: Vm, t: nat, v: nat, d: nat, to: nat)
    requires d < to < 4 && VmInv(vm) && At(vm, PosOf(v, d)) == Some(t)
    requires to == 3 ==> NoHugeLeafAt(vm, v)
    requires Fits(vm, PathPlaces(v, d, to))
    ensures OnlyTables(vm, NextTable(vm, t, Index(v, 3 - d)).0)
  {
    hide OnlyTables, NextTable, VmInv;
    PathStep(v, d);
    if At(vm, PosOf(v, d + 1)).None? {
      assert PosOf(v, d + 1) in Missing(vm, PathPlaces(v, d, to));
    }
    if d == 2 {
      NoHugeLeafEntry(vm, v);
    }
    NextTableWrites(vm, PosOf(v, d), t, Index(v, 3 - d));
  }

  lemma {:induction false} MapHugeWrites(vm: Vm, v: nat, phys: nat, flags: Flags)
    requires VmInv(vm) && At(vm, PosOf(v, 3)).None? && Fits(vm, PathPlaces(v, 0, 2)) && phys % BLOCK_SIZE == 0
    ensures OnlyTables(vm, MapHuge(vm, v, phys, flags))
  {
    hide VmInv, Grew, Fits, Walk, TableAt, IsTable, OnlyTables;
    RootPlace(vm, v);
    DescendWrites(vm, vm.root, v, 3, 1);
    DescendEffect(vm, vm.root, v, 3, 1);
    var (a, pd) := Descend(vm, vm.root, v, 3, 1);
    NotOnPath(v, v);
    PtStillAbsent(vm, a, v);
    HugeLeafEffect(a, v, pd, phys, flags);
    LeafWrites(a, PosOf(v, 2), pd, Index(v, 1), HugeEntry(phys, flags));
    OnlyTablesTrans(vm, a, MapHuge(vm, v, phys, flags), {}, {});
  }

  lemma {:induction false} PtStillAbsent(a: Vm, b: Vm, v: nat)
    requires Grew(a, b, PathPlaces(v, 0, 2), {}) && At(a, PosOf(v, 3)).None?
    ensures At(b, PosOf(v, 3)).None?
  {
    NotOnPath(v, v);
  }

  lemma {:induction false} LeafWrites(a: Vm, p: Pos, t: nat, i: nat, e: Entry)
    requires At(a, p) == Some(t) && VmInv(a.(mem := Store(a.mem, t, i, e)))
    requires Grew(a, a.(mem := Store(a.mem, t, i, e)), {}, {})
    ensures OnlyTables(a, a.(mem := Store(a.mem, t, i, e)))
  {
    var b := a.(mem := Store(a.mem, t, i, e));
    assert At(b, p) == Some(t);
    assert TableAt(b.mem, b.root, p) == Some(t);
    assert IsTable(b.mem, b.root, t);
  }

  // One heap page: frames that become neither a table nor part of its block keep their contents.
  lemma {:induction false} AllocOneWrites(vm: Vm, blocks: seq<nat>, b: nat, flags: Flags, f: nat)
    requires HeapInv(vm, blocks) && |blocks| < Cap(vm)
    requires FirstBlock(vm.pmm.free, 0, vm.pmm.bytes / 64) == Some(b)
    requires Fits(Taking(vm, b), PathPlaces(HeapAddr(|blocks|), 0, 2))
    requires var c := AllocOne(vm, HeapAddr(|blocks|), flags);
      f < |vm.mem| && !IsTable(c.mem, c.root, f) && f !in BlockFrames(b)
    ensures var c := AllocOne(vm, HeapAddr(|blocks|), flags); f < |c.mem| && c.mem[f] == vm.mem[f]
  {
    hide HeapInvFrom, VmInv, Fits, PathPlaces, HeapAddr, Walk, TableAt, Grew, HugePageMapped, BlockOwned, BacksPage, Zeroed,
         OnlyTables, BlockFrames, SameTables, IsTable, MapHuge;
    var v, vm0 := HeapAddr(|blocks|), Taking(vm, b);
    HeapPtAbsent(vm, blocks);
    TakeBlock(vm, b);
    assert (b * BLOCK_SIZE) % BLOCK_SIZE == 0;
    MapHugeCorrect(vm0, v, b * BLOCK_SIZE, flags);
    MapHugeWrites(vm0, v, b * BLOCK_SIZE, flags);
    var vm1 := MapHuge(vm0, v, b * BLOCK_SIZE, flags);
    OwnedKept(vm0, vm1, PathPlaces(v, 0, 2), {}, b);
    OwnedBacks(vm0, vm1, |blocks|, b, flags);
    ZeroPagesEffect(vm1, v, b, 512);
    OnlyTablesLength(vm0, vm1);
    NoTableBefore(vm1, ZeroPages(vm1, v, 512), b, f);
    SameAsBefore(vm0, vm1, f);
  }

  lemma {:induction false} NoTableBefore(a: Vm, c: Vm, b: nat, f: nat)
    requires Zeroing(a, c, b, 512) && !IsTable(c.mem, c.root, f) && f !in BlockFrames(b) && f < |a.mem|
    ensures !IsTable(a.mem, a.root, f) && f < |c.mem| && c.mem[f] == a.mem[f]
  {
    SameTablesIsTable(c.mem, a.mem, c.root, f);
  }

  lemma {:induction false} OnlyTablesLength(a: Vm, b: Vm)
    requires OnlyTables(a, b)
    ensures |b.mem| == |a.mem|
  {
  }

  lemma {:induction false} SameAsBefore(a: Vm, b: Vm, f: nat)
    requires OnlyTables(a, b) && f < |a.mem| && !IsTable(b.mem, b.root, f)
    ensures f < |b.mem| && b.mem[f] == a.mem[f]
  {
  }

  // A frame that is free all along, or that the allocator does not have, and no table, keeps its contents.
  lemma {:induction false} GrowthKeeps(vm: Vm, blocks: seq<nat>, n: nat, flags: Flags, f: nat)
    requires HeapInv(vm, blocks) && Room(vm, |blocks|, n) && f < |vm.mem| && !IsTable(vm.mem, vm.root, f)
    requires f in vm.pmm.free ==> f in AllocFrom(vm, HeapAddr(|blocks|), n, flags).pmm.free
    ensures var c := AllocFrom(vm, HeapAddr(|blocks|), n, flags); f < |c.mem| && c.mem[f] == vm.mem[f]
    decreases n
  {
    hide *;
    if n == 0 {
      GrownNone(vm, |blocks|, flags);
    } else {
      var k := |blocks|;
      RoomIsBlock(vm, blocks, n);
      BlockFound(vm);
      var blk := FirstBlock(vm.pmm.free, 0, vm.pmm.bytes / 64).value;
      RoomFits(vm, k, n, blk);
      AllocOneCorrect(vm, blocks, blk, flags);
      var b := AllocOne(vm, HeapAddr(k), flags);
      AfterOne(vm, b, blocks, blk, flags, n);
      GrownNext(vm, k, n, flags);
      AllocFromCorrect(b, blocks + [blk], n - 1, flags);
      StaysFree(b, AllocFrom(b, HeapAddr(k + 1), n - 1, flags), f, GeometryOf(b.pmm), TablesFor(b, {}, k + 1, n - 1));
      NotTaken(vm, b, k, blk, flags, f);
      AllocOneWrites(vm, blocks, blk, flags, f);
      GrowthKeeps(b, blocks + [blk], n - 1, flags, f);
    }
  }

  lemma {:induction false} GrownNone(vm: Vm, k: nat, flags: Flags)
    ensures AllocFrom(vm, HeapAddr(k), 0, flags) == vm
  {
  }

  lemma {:induction false} GrownNext(vm: Vm, k: nat, n: nat, flags: Flags)
    requires n > 0
    ensures AllocFrom(vm, HeapAddr(k), n, flags) == AllocFrom(AllocOne(vm, HeapAddr(k), flags), HeapAddr(k + 1), n - 1, flags)
  {
    hide AllocOne, HeapAddr;
    NextAddr(k);
  }

  lemma {:induction false} StaysFree(b: Vm, c: Vm, f: nat, g: Geometry, ms: seq<nat>)
    requires c.pmm.free == AfterPages(b.pmm.free, g, ms)
    ensures f in c.pmm.free ==> f in b.pmm.free
  {
    hide AfterPages;
  }

  lemma {:induction false} NotTaken(a: Vm, c: Vm, k: nat, b: nat, flags: Flags, f: nat)
    requires PageAdded(a, c, k, b, flags) && !IsTable(a.mem, a.root, f) && (f in a.pmm.free ==> f in c.pmm.free)
    ensures !IsTable(c.mem, c.root, f) && f !in BlockFrames(b) && (f in c.pmm.free ==> f in a.pmm.free)
  {
    hide PathPlaces, HeapAddr, HugePageMapped;
    forall p
      ensures TableAt(c.mem, c.root, p) != Some(f)
    {
      assert TableAt(a.mem, a.root, p) != Some(f);
      assert At(c, p) == TableAt(c.mem, c.root, p) && At(a, p) == TableAt(a.mem, a.root, p);
      if At(a, p).None? && At(c, p).Some? {
        assert p in Missing(a, PathPlaces(HeapAddr(k), 0, 2));
        assert At(c, p).value in Added(a, c, PathPlaces(HeapAddr(k), 0, 2));
      }
    }
  }

  // ---- the bytes of the API page ---------------------------------------------------------------------

  function ApiByte(vm: Vm, o: nat): byte
    requires o < 4096
  {
    ByteAt(vm.mem, API_FRAME, o)
  }

  // The bytes of the page below an offset are the same.
  ghost predicate SameBelow(a: Vm, b: Vm, low: nat)
    requires low <= 4096
  {
    |b.mem| == |a.mem| && forall o :: 0 <= o < low ==> ApiByte(b, o) == ApiByte(a, o)
  }

  // Of 0x10000000 and on, no byte below this offset is stored to, whatever the bits above 47.
  predicate Leaves(actions: seq<Action>, low: nat) {
    forall i :: 0 <= i < |actions| && actions[i].Write? ==>
      actions[i].v / 4096 % 0x10_0000_0000 != 0x1_0000 || actions[i].v % 4096 >= low
  }

  lemma {:induction false} SameBelowRefl(a: Vm, low: nat)
    requires low <= 4096
    ensures SameBelow(a, a, low)
  {
  }

  lemma {:induction false} SameBelowTrans(a: Vm, b: Vm, c: Vm, low: nat)
    requires low <= 4096 && SameBelow(a, b, low) && SameBelow(b, c, low)
    ensures SameBelow(a, c, low)
  {
    hide ApiByte;
    forall o | 0 <= o < low
      ensures ApiByte(c, o) == ApiByte(a, o)
    {
      assert ApiByte(b, o) == ApiByte(a, o);
    }
  }

  lemma {:induction false} SameFrameBelow(a: Vm, b: Vm, low: nat)
    requires low <= 4096 && |b.mem| == |a.mem| && (API_FRAME < |a.mem| ==> b.mem[API_FRAME] == a.mem[API_FRAME])
    ensures SameBelow(a, b, low)
  {
    hide ByteOf;
  }

  lemma {:induction false} OnPageIs(v: nat)
    ensures OnApiPage(v) <==> v / 4096 % 0x10_0000_0000 == 0x1_0000
  {
  }

  // A store that is legal and leaves the bytes below an offset alone.
  lemma {:induction false} WriteKeeps(start: Vm, vm: Vm, blocks: seq<nat>, v: nat, b: byte, low: nat)
    requires Grown(start, vm, blocks) && (HeapIndex(v) < |blocks| || OnApiPage(v)) && low <= 4096
    requires OnApiPage(v) ==> v % 4096 >= low
    ensures SameBelow(vm, StoreByte(vm, v, b), low)
  {
    hide HeapInvFrom, BlockUnion, HeapPlaces, HeapIndex, Walk, TableAt, GrewButApi, IsTable, OnApiPage, OnLowest, ByteAt, PutByte,
         SameTables;
    GrownInv(start, vm, blocks);
    GrownApi(start, vm, blocks);
    if OnApiPage(v) {
      StoreEffect(vm, v, b, API_FRAME);
      forall o | 0 <= o < low
        ensures ApiByte(StoreByte(vm, v, b), o) == ApiByte(vm, o)
      {
        PutOther(vm.mem, API_FRAME, v % 4096, b, o);
      }
    } else {
      HeapFrame(vm, blocks, v);
      GrownOff(start, vm, blocks);
      UnionNoTable(vm, blocks, Walk(vm.mem, vm.root, v).frame);
      StoreEffect(vm, v, b, Walk(vm.mem, vm.root, v).frame);
      SameFrameBelow(vm, StoreByte(vm, v, b), low);
    }
  }

  lemma {:induction false} PutOther(mem: Mem, frame: nat, offset: nat, b: byte, o: nat)
    requires offset < 4096 && o < 4096 && o != offset
    ensures ByteAt(PutByte(mem, frame, offset, b), frame, o) == ByteAt(mem, frame, o)
  {
    hide ByteOf, SetByte;
    if frame < |mem| {
      PutThenGet(mem, frame, offset, b, frame, o);
    }
  }

  lemma {:induction false} GrowKeeps(start: Vm, vm: Vm, blocks: seq<nat>, n: nat, flags: Flags, rest: nat, low: nat)
    requires Grown(start, vm, blocks) && Room(vm, |blocks|, n) && Spares(start, 0, |blocks| + n + rest) && low <= 4096
    ensures SameBelow(vm, AllocFrom(vm, HeapAddr(|blocks|), n, flags), low)
  {
    hide *;
    GrownInv(start, vm, blocks);
    GrownApi(start, vm, blocks);
    AllocFromCorrect(vm, blocks, n, flags);
    var c := AllocFrom(vm, HeapAddr(|blocks|), n, flags);
    SparesSplit(start, 0, |blocks| + n, rest);
    SparesAfter(start, vm, blocks, n);
    KeptIs(vm, c, |blocks|, n);
    AddedGrew(vm, c, blocks, blocks + Blocks(vm.pmm.free, GeometryOf(vm.pmm), TablesFor(vm, {}, |blocks|, n)), flags);
    KeptFree(vm, c);
    OwnedIs(vm);
    SameGrown(vm, c, |blocks|, n, blocks + Blocks(vm.pmm.free, GeometryOf(vm.pmm), TablesFor(vm, {}, |blocks|, n)));
    if API_FRAME < |vm.mem| {
      GrowthKeeps(vm, blocks, n, flags, API_FRAME);
    }
    SameFrameBelow(vm, c, low);
  }

  lemma {:induction false} KeptFree(a: Vm, b: Vm)
    requires ApiKept(a, b)
    ensures API_FRAME in a.pmm.free ==> API_FRAME in b.pmm.free
  {
  }

  lemma {:induction false} OwnedIs(vm: Vm)
    requires ApiOwned(vm)
    ensures !IsTable(vm.mem, vm.root, API_FRAME)
  {
  }

  lemma {:induction false} SameGrown(a: Vm, c: Vm, k: nat, n: nat, blocks': seq<nat>)
    requires k <= |blocks'| && Grew(a, c, HeapPlaces(k, |blocks'| - k), BlockUnion(blocks'[k..]))
    ensures |c.mem| == |a.mem|
  {
  }

  lemma {:induction false} ActionsKeep(start: Vm, vm: Vm, blocks: seq<nat>, actions: seq<Action>, low: nat)
    requires Grown(start, vm, blocks) && InHeap(|blocks|, actions) && Room(vm, |blocks|, Total(actions))
    requires Spares(start, 0, |blocks| + Total(actions)) && low <= 4096 && Leaves(actions, low)
    ensures SameBelow(vm, RunActions(vm, HeapAddr(|blocks|), actions).0, low)
    decreases |actions|
  {
    hide Grown, Room, StoreByte, AllocFrom, AllocHuge, HeapAddr, HeapIndex, OnApiPage, Spares, SameBelow;
    if actions == [] {
      SameBelowRefl(vm, low);
    } else {
      var rest := actions[1..];
      RestLeaves(actions, low);
      match actions[0]
      case Grow(n, flags) =>
        RoomSplit(vm, |blocks|, n, Total(rest));
        GrowKeeps(start, vm, blocks, n, flags, Total(rest), low);
        var more := GrowCorrect(start, vm, blocks, n, flags, Total(rest));
        AllocHugeIs(vm, |blocks|, n, flags);
        var c := AllocFrom(vm, HeapAddr(|blocks|), n, flags);
        ActionsKeep(start, c, more, rest, low);
        SameBelowTrans(vm, c, RunActions(c, HeapAddr(|more|), rest).0, low);
      case Write(v, b) =>
        OnPageIs(v);
        WriteKeeps(start, vm, blocks, v, b, low);
        GrownWritten(start, vm, blocks, v, b);
        WriteRoom(start, vm, blocks, v, b, Total(rest));
        var c := StoreByte(vm, v, b);
        ActionsKeep(start, c, blocks, rest, low);
        SameBelowTrans(vm, c, RunActions(c, HeapAddr(|blocks|), rest).0, low);
    }
  }

  lemma {:induction false} RestLeaves(actions: seq<Action>, low: nat)
    requires actions != [] && Leaves(actions, low)
    ensures Leaves(actions[1..], low)
    ensures actions[0].Write? ==> actions[0].v / 4096 % 0x10_0000_0000 != 0x1_0000 || actions[0].v % 4096 >= low
  {
    assert forall i :: 0 <= i < |actions[1..]| ==> actions[1..][i] == actions[i + 1];
  }
}
