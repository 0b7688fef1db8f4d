/**
 Heap growth when no 2 MB block is left, and a 2 MB page mapped over 4 KB pages: neither is checked
 for, and both go through.
 */
module HeapFailure {
  import opened Wrappers
  import opened PmmSpec
  import opened Paging
  import opened PageTree
  import opened VmSpec
  import opened VmProofs
  import opened VmExact
  import opened HeapSpec
  import opened HeapProofs

  // ---- no block for a heap page ------------------------------------------------------------------

  // What the loop body is then: the page is mapped to physical 0.
  lemma {:induction false} AllocIsZero(vm: Vm, next: nat, flags: Flags)
    requires FirstBlock(vm.pmm.free, 0, vm.pmm.bytes / 64).None?
    ensures AllocOne(vm, next, flags) == ZeroPages(MapHuge(vm, next, 0, flags), next, 512)
  {
  }

  // Block 0 belongs to someone: its frames are claimed and hold no page table.
  lemma {:induction false} BlockZeroMapped(vm: Vm, blocks: seq<nat>, flags: Flags)
    requires HeapInv(vm, blocks) && |blocks| < Cap(vm) && BlockOwned(vm, 0)
    requires Fits(vm, PathPlaces(HeapAddr(|blocks|), 0, 2))
    ensures var b := MapHuge(vm, HeapAddr(|blocks|), 0, flags);
      && VmInv(b) && Grew(vm, b, PathPlaces(HeapAddr(|blocks|), 0, 2), {})
      && HugePageMapped(vm, b, HeapAddr(|blocks|), 0, flags) && BlockOwned(b, 0) && BacksPage(b, HeapAddr(|blocks|), 0)
  {
    hide VmInv, HeapInvFrom, Grew, Fits, HeapAddr, TableAt, Walk, HugePageMapped, BlockOwned, BacksPage, PathPlaces;
    var v := HeapAddr(|blocks|);
    HeapPtAbsent(vm, blocks);
    assert 0 % BLOCK_SIZE == 0;
    MapHugeCorrect(vm, v, 0, flags);
    var b := MapHuge(vm, v, 0, flags);
    OwnedKept(vm, b, PathPlaces(v, 0, 2), {}, 0);
    OwnedBacks(vm, b, |blocks|, 0, flags);
  }

  // The heap invariant does not see the contents of frames that are no tables.
  lemma {:induction false} ZeroedOwned(b: Vm, c: Vm, zeroed: nat, blk: nat)
    requires BlockOwned(b, blk) && Zeroing(b, c, zeroed, 512)
    ensures BlockOwned(c, blk)
  {
    forall f | f in BlockFrames(blk)
      ensures !IsTable(c.mem, c.root, f)
    {
      SameTablesIsTable(b.mem, c.mem, b.root, f);
    }
  }

  lemma {:induction false} ZeroedPts(b: Vm, c: Vm, zeroed: nat)
    requires Zeroing(b, c, zeroed, 512)
    ensures forall w :: At(b, PosOf(w, 3)).None? ==> At(c, PosOf(w, 3)).None?
  {
    hide PosOf;
    forall w | At(b, PosOf(w, 3)).None?
      ensures At(c, PosOf(w, 3)).None?
    {
      assert TableAt(c.mem, b.root, PosOf(w, 3)) == TableAt(b.mem, b.root, PosOf(w, 3));
    }
  }

  // vmm_alloc_huge_page without a wholly free block: the new heap page leads to the first 2 MB of
  // physical memory, which are zeroed, although they belong to someone else and were never handed out.
  lemma {:induction false} AllocWithoutBlock(vm: Vm, blocks: seq<nat>, flags: Flags)
    requires HeapInv(vm, blocks) && |blocks| < Cap(vm) && BlockOwned(vm, 0) && 0 !in blocks
    requires FirstBlock(vm.pmm.free, 0, vm.pmm.bytes / 64).None? && Fits(vm, PathPlaces(HeapAddr(|blocks|), 0, 2))
    ensures var c := AllocOne(vm, HeapAddr(|blocks|), flags);
      && HeapInv(c, blocks + [0]) && HugePageMapped(vm, c, HeapAddr(|blocks|), 0, flags)
      && Zeroed(c.mem, BlockFrames(0)) && c.pmm.free <= vm.pmm.free
  {
    hide VmInv, BlockOwned, HeapWalks, HugePageMapped, BlockFrames, PathPlaces, TableAt, Walk, HeapAddr, BacksPage, Fits;
    var k := |blocks|;
    AllocIsZero(vm, HeapAddr(k), flags);
    BlockZeroMapped(vm, blocks, flags);
    var b := MapHuge(vm, HeapAddr(k), 0, flags);
    ZeroPagesEffect(b, HeapAddr(k), 0, 512);
    var c := ZeroPages(b, HeapAddr(k), 512);
    ZeroedInv(b, c, 0);
    ZeroWalks(vm, b, c, HeapAddr(k), flags);
    assert 0 * BLOCK_SIZE == 0;
    CapSmall(vm);
    WalksExtend(vm, c, blocks, 0, flags);
    PtsAbsent(vm, b, HeapAddr(k), {});
    ZeroedPts(b, c, 0);
    forall i | 0 <= i < |blocks + [0]|
      ensures BlockOwned(c, (blocks + [0])[i])
    {
      if i < k {
        OwnedKept(vm, b, PathPlaces(HeapAddr(k), 0, 2), {}, blocks[i]);
        ZeroedOwned(b, c, 0, blocks[i]);
      } else {
        ZeroedOwned(b, c, 0, 0);
      }
    }
  }

  lemma {:induction false} ZeroWalks(a: Vm, b: Vm, c: Vm, v: nat, flags: Flags)
    requires HugePageMapped(a, b, v, 0, flags) && Zeroing(b, c, 0, 512)
    ensures HugePageMapped(a, c, v, 0, flags) && Zeroed(c.mem, BlockFrames(0))
  {
  }

  // The reset then frees block 0, which nobody had allocated for the heap.
  lemma {:induction false} ResetFreesBlockZero(vm: Vm, blocks: seq<nat>, flags: Flags)
    requires HeapInv(vm, blocks) && |blocks| < Cap(vm) && BlockOwned(vm, 0) && 0 !in blocks
    requires FirstBlock(vm.pmm.free, 0, vm.pmm.bytes / 64).None? && Fits(vm, PathPlaces(HeapAddr(|blocks|), 0, 2))
    ensures var end := ResetHeap(AllocOne(vm, HeapAddr(|blocks|), flags), HeapAddr(|blocks| + 1));
      && BlockFrames(0) <= end.pmm.free && BlockFrames(0) !! vm.pmm.free
      && end.pmm.free <= vm.pmm.free + BlockFrames(0) + BlockUnion(blocks)
  {
    hide VmInv, HeapInvFrom, HugePageMapped, PathPlaces, TableAt, Walk, HeapAddr, Fits, AllocOne, BlockUnion,
         BlockFrames, ResetHeap;
    AllocWithoutBlock(vm, blocks, flags);
    var c := AllocOne(vm, HeapAddr(|blocks|), flags);
    ResetHeapCorrect(c, blocks + [0]);
    UnionLast(blocks, 0);
  }

  // ---- when the PML4 lies in the first 2 MB ----------------------------------------------------------

  // The page at v leads to the first 2 MB, whose frames below the root hold no table.
  ghost predicate LeadsToRoot(vm: Vm, v: nat) {
    && vm.root < 512 <= |vm.mem|
    && (forall k :: 0 <= k < 512 ==> Walk(vm.mem, vm.root, PageIn(v, k)).Mapped? && Walk(vm.mem, vm.root, PageIn(v, k)).frame == k)
    && forall f :: 0 <= f < vm.root ==> !IsTable(vm.mem, vm.root, f)
  }

  ghost predicate SameShape(a: Vm, b: Vm) {
    b.root == a.root && b.pmm == a.pmm && |b.mem| == |a.mem| && SameTables(a.mem, b.mem, a.root) && SameWalks(a, b)
  }

  lemma {:induction false} ShapeStep(vm: Vm, m: Vm, f: nat)
    requires SameShape(vm, m) && f < |vm.mem| && !IsTable(vm.mem, vm.root, f)
    ensures SameShape(vm, m.(mem := Clear(m.mem, f)))
  {
    SameTablesIsTable(vm.mem, m.mem, vm.root, f);
    DataFrameWrite(m.mem, m.root, f, ZeroTable());
  }

  lemma {:induction false} ZeroTo(vm: Vm, m: Vm, v: nat, n: nat)
    requires LeadsToRoot(vm, v) && SameShape(vm, m) && n < 512
    ensures var at := Walk(m.mem, m.root, v + n * FRAME_SIZE); at.Mapped? && at.frame == n
    ensures n < vm.root ==> !IsTable(vm.mem, vm.root, n)
  {
    hide Walk, TableAt, IsTable;
    assert Walk(m.mem, m.root, PageIn(v, n)) == Walk(vm.mem, vm.root, PageIn(v, n));
  }

  // Up to the root the clearing goes through intact tables.
  lemma {:induction false} BelowRoot(vm: Vm, v: nat, n: nat)
    requires LeadsToRoot(vm, v) && n <= vm.root
    ensures SameShape(vm, ZeroPages(vm, v, n))
  {
    hide SameShape, Walk, Clear, IsTable;
    if n > 0 {
      BelowRoot(vm, v, n - 1);
      ZeroTo(vm, ZeroPages(vm, v, n - 1), v, n - 1);
      ShapeStep(vm, ZeroPages(vm, v, n - 1), n - 1);
    } else {
      assert SameShape(vm, vm) by { SameShapeRefl(vm); }
    }
  }

  lemma {:induction false} SameShapeRefl(vm: Vm)
    ensures SameShape(vm, vm)
  {
  }

  // No translation is left.
  ghost predicate Dead(vm: Vm) {
    forall w :: Walk(vm.mem, vm.root, w) == Unmapped
  }

  lemma {:induction false} EmptyRootWalks(vm: Vm)
    requires vm.root < |vm.mem| && vm.mem[vm.root] == ZeroTable()
    ensures Dead(vm)
  {
    forall w
      ensures Walk(vm.mem, vm.root, w) == Unmapped
    {
      EntryBits(0, 0, ZERO.flags);
      assert TableAt(vm.mem, vm.root, PosOf(w, 1)) == None;
      assert TableAt(vm.mem, vm.root, PosOf(w, 2)) == None;
    }
  }

  lemma {:induction false} FromRoot(vm: Vm, v: nat, n: nat)
    requires LeadsToRoot(vm, v) && vm.root < n <= 512
    ensures Dead(ZeroPages(vm, v, n))
  {
    hide SameShape, Walk, Dead, SameTables;
    var m := ZeroPages(vm, v, n - 1);
    if n == vm.root + 1 {
      BelowRoot(vm, v, n - 1);
      ZeroTo(vm, m, v, n - 1);
      assert m.root == vm.root && |m.mem| == |vm.mem| by { ShapeIs(vm, m); }
      EmptyRootWalks(m.(mem := Clear(m.mem, n - 1)));
    } else {
      FromRoot(vm, v, n - 1);
      assert Walk(m.mem, m.root, v + (n - 1) * FRAME_SIZE) == Unmapped by { DeadAt(m, v + (n - 1) * FRAME_SIZE); }
    }
  }

  lemma {:induction false} ShapeIs(vm: Vm, m: Vm)
    requires SameShape(vm, m)
    ensures m.root == vm.root && |m.mem| == |vm.mem|
  {
  }

  lemma {:induction false} DeadAt(vm: Vm, w: nat)
    requires Dead(vm)
    ensures Walk(vm.mem, vm.root, w) == Unmapped
  {
  }

  // The root is the lowest frame the allocator ever gave. HeapEnd has that of the booted machine.
  ghost predicate RootLowest(vm: Vm) {
    && (forall p :: At(vm, p).Some? ==> vm.root <= At(vm, p).value)
    && forall f :: f in vm.pmm.free ==> vm.root <= f
  }

  lemma {:induction false} MappedToRoot(vm: Vm, blocks: seq<nat>, flags: Flags)
    requires HeapInv(vm, blocks) && |blocks| < Cap(vm) && vm.root < 512 <= |vm.mem| && RootLowest(vm)
    requires Fits(vm, PathPlaces(HeapAddr(|blocks|), 0, 2))
    ensures LeadsToRoot(MapHuge(vm, HeapAddr(|blocks|), 0, flags), HeapAddr(|blocks|))
  {
    hide Walk, TableAt, PathPlaces, HeapAddr, PageIn, HeapInvFrom, VmInv, Fits, Index, SameHugePage;
    var k := |blocks|;
    HeapPtAbsent(vm, blocks);
    assert 0 % BLOCK_SIZE == 0;
    MapHugeCorrect(vm, HeapAddr(k), 0, flags);
    var b := MapHuge(vm, HeapAddr(k), 0, flags);
    forall i | 0 <= i < 512
      ensures Walk(b.mem, b.root, PageIn(HeapAddr(k), i)).Mapped? && Walk(b.mem, b.root, PageIn(HeapAddr(k), i)).frame == i
    {
      PageInHuge(k, i);
    }
    forall p | At(b, p).Some?
      ensures At(b, p).value >= vm.root
    {
      if At(vm, p).None? {
        assert p in Missing(vm, PathPlaces(HeapAddr(k), 0, 2));
        assert At(b, p).value in Added(vm, b, PathPlaces(HeapAddr(k), 0, 2));
      }
    }
    forall f | 0 <= f < b.root
      ensures !IsTable(b.mem, b.root, f)
    {
      assert forall p :: At(b, p) == TableAt(b.mem, b.root, p);
    }
  }

  // With the PML4 in the first 2 MB a heap page without a block zeroes the PML4: the whole address
  // space is gone.
  lemma {:induction false} AllocZeroesRoot(vm: Vm, blocks: seq<nat>, flags: Flags)
    requires HeapInv(vm, blocks) && |blocks| < Cap(vm) && vm.root < 512 <= |vm.mem| && RootLowest(vm)
    requires FirstBlock(vm.pmm.free, 0, vm.pmm.bytes / 64).None? && Fits(vm, PathPlaces(HeapAddr(|blocks|), 0, 2))
    ensures Dead(AllocOne(vm, HeapAddr(|blocks|), flags))
  {
    hide *;
    AllocIsZero(vm, HeapAddr(|blocks|), flags);
    MappedToRoot(vm, blocks, flags);
    LeadsIs(MapHuge(vm, HeapAddr(|blocks|), 0, flags), HeapAddr(|blocks|));
    FromRoot(MapHuge(vm, HeapAddr(|blocks|), 0, flags), HeapAddr(|blocks|), 512);
  }

  lemma {:induction false} LeadsIs(vm: Vm, v: nat)
    requires LeadsToRoot(vm, v)
    ensures vm.root < 512
  {
  }

  // ---- a 2 MB page over a PT -------------------------------------------------------------------------

  // Slot i of the PD t at pos leads to a PT; e leads nowhere.
  ghost predicate CanUnlinkPt(mem: Mem, root: nat, pos: Pos, t: nat, i: nat, e: Entry) {
    && IsTree(mem, root) && TableAt(mem, root, pos) == Some(t) && Depth(pos) == 2
    && t < |mem| && i < 512 && Links(2, mem[t][i]) && !Links(2, e)
  }

  lemma {:induction false} UnlinkTables(mem: Mem, root: nat, pos: Pos, t: nat, i: nat, e: Entry, p: Pos)
    requires CanUnlinkPt(mem, root, pos, t, i, e)
    ensures TableAt(Store(mem, t, i, e), root, p) == if p == Child(pos, i) then None else TableAt(mem, root, p)
  {
    match p
    case Root =>
    case Child(q, j) =>
      UnlinkTables(mem, root, pos, t, i, e, q);
      if TableAt(mem, root, q) == Some(t) {
        assert q == pos;
      }
  }

  lemma {:induction false} UnlinkWalk(mem: Mem, root: nat, pos: Pos, t: nat, i: nat, e: Entry, v: nat)
    requires CanUnlinkPt(mem, root, pos, t, i, e)
    ensures Walk(Store(mem, t, i, e), root, v) ==
      if PosOf(v, 2) == pos && Index(v, 1) == i then PdTranslation(e, v) else Walk(mem, root, v)
  {
    var mem' := Store(mem, t, i, e);
    WalkTables(mem, root, v);
    WalkTables(mem', root, v);
    UnlinkTables(mem, root, pos, t, i, e, PosOf(v, 2));
    UnlinkTables(mem, root, pos, t, i, e, PosOf(v, 3));
    assert PosOf(v, 3) == Child(PosOf(v, 2), Index(v, 1));
    assert TableAt(mem, root, PosOf(v, 2)) == Some(t) ==> pos == PosOf(v, 2);
    assert TableAt(mem, root, PosOf(v, 3)) != Some(t);
  }

  lemma {:induction false} DescendToPd(vm: Vm, v: nat, pdpt: nat, pd: nat)
    requires Present(Lookup(vm.mem, vm.root, Index(v, 3))) && Lookup(vm.mem, vm.root, Index(v, 3)).frame == pdpt
    requires Present(Lookup(vm.mem, pdpt, Index(v, 2))) && Lookup(vm.mem, pdpt, Index(v, 2)).frame == pd
    ensures Descend(vm, vm.root, v, 3, 1) == (vm, pd)
  {
    assert Descend(vm, pdpt, v, 2, 1) == Descend(vm, pd, v, 1, 1);
  }

  // vmm_map_virt_to_phys_huge_page where 4 KB pages were mapped: every translation is right, and the
  // one thing that is wrong is that the PT's frame stays claimed and is a table no more.
  lemma {:induction false} MapHugeOverPt(vm: Vm, v: nat, phys: nat, flags: Flags)
    requires VmInv(vm) && At(vm, PosOf(v, 3)).Some? && phys % BLOCK_SIZE == 0
    ensures var b := MapHuge(vm, v, phys, flags);
      && VmInv(b) && b.pmm == vm.pmm && HugePageMapped(vm, b, v, phys, flags)
      && (forall p :: At(b, p) == if p == PosOf(v, 3) then None else At(vm, p))
      && At(vm, PosOf(v, 3)).value !in b.pmm.free && !IsTable(b.mem, b.root, At(vm, PosOf(v, 3)).value)
  {
    hide Walk, Index, SameHugePage, HugeEntry;
    PathStep(v, 2);
    LinksOnPath(vm, v);
    var pd, e := At(vm, PosOf(v, 2)).value, HugeEntry(phys, flags);
    DescendToPd(vm, v, At(vm, PosOf(v, 1)).value, pd);
    EntryBits(0, phys, flags);
    AlignedFrame(phys, flags);
    SlotBelow(v);
    UnlinkEffect(vm, PosOf(v, 2), pd, Index(v, 1), e);
    forall w
      ensures Walk(Store(vm.mem, pd, Index(v, 1), e), vm.root, w) ==
        if SameHugePage(v, w) then HugeTranslation(phys, flags, w) else Walk(vm.mem, vm.root, w)
    {
      UnlinkWalk(vm.mem, vm.root, PosOf(v, 2), pd, Index(v, 1), e, w);
      SameHugePageSlots(v, w);
      HugeEntrySays(phys, flags, w);
    }
  }

  lemma {:induction false} SlotBelow(v: nat)
    ensures Index(v, 1) < 512
  {
  }

  lemma {:induction false} HugeEntrySays(phys: nat, flags: Flags, w: nat)
    ensures PdTranslation(HugeEntry(phys, flags), w) == HugeTranslation(phys, flags, w)
  {
    EntryBits(0, phys, flags);
  }

  lemma {:induction false} UnlinkEffect(vm: Vm, pos: Pos, t: nat, i: nat, e: Entry)
    requires VmInv(vm) && CanUnlinkPt(vm.mem, vm.root, pos, t, i, e) && EntryOk(2, e)
    ensures var b := vm.(mem := Store(vm.mem, t, i, e));
      && VmInv(b) && (forall p :: At(b, p) == if p == Child(pos, i) then None else At(vm, p))
      && At(vm, Child(pos, i)).Some? && !IsTable(b.mem, b.root, At(vm, Child(pos, i)).value)
  {
    var b := vm.(mem := Store(vm.mem, t, i, e));
    forall p
      ensures TableAt(b.mem, b.root, p) == if p == Child(pos, i) then None else TableAt(vm.mem, vm.root, p)
    {
      UnlinkTables(vm.mem, vm.root, pos, t, i, e, p);
    }
    assert forall p :: At(b, p) == if p == Child(pos, i) then None else At(vm, p);
    forall p, j | At(b, p).Some?
      ensures EntryOk(Depth(p), Lookup(b.mem, At(b, p).value, j))
    {
      assert At(vm, p) == Some(t) ==> p == pos;
      assert EntryOk(Depth(p), Lookup(vm.mem, At(vm, p).value, j));
    }
  }
}
