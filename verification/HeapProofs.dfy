/** What heap growth and reset do, one page at a time. */
module HeapProofs {
  import opened Wrappers
  import opened Sets
  import opened PmmSpec
  import opened Paging
  import opened PageTree
  import opened VmSpec
  import opened VmProofs
  import opened HeapSpec

  const HUGE_COUNT: nat := 0x800_0000   // 2 MB pages of the 48-bit address space

  // Which heap page w lies in, counted around the address space from HEAP_START.
  function HeapIndex(w: nat): (k: nat)
    ensures k < HUGE_COUNT
  {
    (w / 0x20_0000 - HEAP_START / 0x20_0000) % HUGE_COUNT
  }

  lemma {:induction false} Shifted(h: nat, k: nat, x: nat)
    requires k < HUGE_COUNT
    ensures (x - h) % HUGE_COUNT == k <==> (h + k) % HUGE_COUNT == x % HUGE_COUNT
  {
  }

  lemma {:induction false} HeapPageOf(k: nat, w: nat)
    requires k < HUGE_COUNT
    ensures SameHugePage(HeapAddr(k), w) <==> HeapIndex(w) == k
    ensures HeapIndex(HeapAddr(k)) == k
  {
    var h, x := HEAP_START / 0x20_0000, w / 0x20_0000;
    assert HeapAddr(k) / 0x20_0000 == h + k;
    Shifted(h, k, x);
    Shifted(h, k, h + k);
  }

  // The blocks of memory bound the pages the heap can ever have.
  function Cap(vm: Vm): nat {
    vm.pmm.total / 512
  }

  ghost predicate HeapWalks(vm: Vm, blocks: seq<nat>, lo: nat) {
    forall w :: HeapIndex(w) < Cap(vm) ==>
      if lo <= HeapIndex(w) < |blocks| then
        && Walk(vm.mem, vm.root, w).Mapped?
        && Walk(vm.mem, vm.root, w).frame == 512 * blocks[HeapIndex(w)] + Index(w, 0)
      else Walk(vm.mem, vm.root, w) == Unmapped
  }

  // Frames of the block are claimed, lie in memory and hold no page table.
  ghost predicate BlockOwned(vm: Vm, b: nat) {
    && 512 * b + 512 <= vm.pmm.total
    && forall f :: f in BlockFrames(b) ==> f !in vm.pmm.free && !IsTable(vm.mem, vm.root, f)
  }

  // The heap has pages lo .. |blocks| - 1, page k on block blocks[k]; the pages below lo and
  // from |blocks| on are unmapped. No 4 KB page was ever mapped in the heap's part of the
  // address space.
  ghost predicate HeapInvFrom(vm: Vm, blocks: seq<nat>, lo: nat) {
    && VmInv(vm)
    && vm.pmm.bytes == (vm.pmm.total + 7) / 8 < 0x8000_0000
    && lo <= |blocks| <= Cap(vm)
    && (forall w :: HeapIndex(w) < Cap(vm) ==> At(vm, PosOf(w, 3)).None?)
    && HeapWalks(vm, blocks, lo)
    && (forall k :: lo <= k < |blocks| ==> BlockOwned(vm, blocks[k]))
    && (forall i, j :: lo <= i < j < |blocks| ==> blocks[i] != blocks[j])
  }

  ghost predicate HeapInv(vm: Vm, blocks: seq<nat>) {
    HeapInvFrom(vm, blocks, 0)
  }

  // ---- zeroing a block through its mapping ------------------------------------------------------

  // The two memories differ only in frames of the set.
  ghost predicate DiffersOn(a: Mem, b: Mem, frames: set<nat>) {
    |a| == |b| && forall f :: 0 <= f < |a| && f !in frames ==> b[f] == a[f]
  }

  // The 512 pages of the huge page at v lead to the frames of block b, none of them a table.
  ghost predicate BacksPage(vm: Vm, v: nat, b: nat) {
    && 512 * b + 512 <= |vm.mem|
    && (forall k :: 0 <= k < 512 ==> Walk(vm.mem, vm.root, PageIn(v, k)).Mapped? && Walk(vm.mem, vm.root, PageIn(v, k)).frame == 512 * b + k)
    && (forall f :: f in BlockFrames(b) ==> !IsTable(vm.mem, vm.root, f))
  }

  function PageIn(v: nat, k: nat): nat {
    v + k * FRAME_SIZE
  }

  ghost predicate Zeroed(mem: Mem, frames: set<nat>) {
    forall f :: f in frames ==> f < |mem| && mem[f] == ZeroTable()
  }

  // c is a with some frames that are no tables cleared, up to n of the block's.
  ghost predicate Zeroing(a: Vm, c: Vm, b: nat, n: nat) {
    && c.root == a.root && c.pmm == a.pmm
    && DiffersOn(a.mem, c.mem, BlockFrames(b))
    && SameTables(a.mem, c.mem, a.root) && SameWalks(a, c)
    && Zeroed(c.mem, Run(512 * b, n))
  }

  lemma {:induction false} ZeroStep(a: Vm, m: Vm, b: nat, n: nat)
    requires n < 512 && 512 * b + 512 <= |a.mem| && Zeroing(a, m, b, n)
    requires !IsTable(a.mem, a.root, 512 * b + n)
    ensures Zeroing(a, m.(mem := Clear(m.mem, 512 * b + n)), b, n + 1)
  {
    var f := 512 * b + n;
    assert f in BlockFrames(b);
    SameTablesIsTable(a.mem, m.mem, a.root, f);
    DataFrameWrite(m.mem, m.root, f, ZeroTable());
  }

  lemma {:induction false} ZeroTarget(vm: Vm, m: Vm, v: nat, b: nat, n: nat)
    requires n < 512 && BacksPage(vm, v, b) && Zeroing(vm, m, b, n)
    ensures var at := Walk(m.mem, m.root, v + n * FRAME_SIZE); at.Mapped? && at.frame == 512 * b + n
    ensures !IsTable(vm.mem, vm.root, 512 * b + n)
  {
    hide Walk, TableAt;
    assert Walk(m.mem, m.root, PageIn(v, n)) == Walk(vm.mem, vm.root, PageIn(v, n));
    assert 512 * b + n in BlockFrames(b);
  }

  lemma {:induction false} ZeroNone(vm: Vm, b: nat)
    ensures Zeroing(vm, vm, b, 0)
  {
  }

  lemma {:induction false} ZeroPagesEffect(vm: Vm, v: nat, b: nat, n: nat)
    requires n <= 512 && BacksPage(vm, v, b)
    ensures Zeroing(vm, ZeroPages(vm, v, n), b, n)
  {
    hide Zeroing, BacksPage, Walk, Clear, IsTable;
    if n == 0 {
      ZeroNone(vm, b);
    } else {
      ZeroPagesEffect(vm, v, b, n - 1);
      var m := ZeroPages(vm, v, n - 1);
      ZeroTarget(vm, m, v, b, n - 1);
      BlockInMemory(vm, v, b);
      ZeroStep(vm, m, b, n - 1);
    }
  }

  lemma {:induction false} BlockInMemory(vm: Vm, v: nat, b: nat)
    requires BacksPage(vm, v, b)
    ensures 512 * b + 512 <= |vm.mem|
  {
  }

  lemma {:induction false} SameTablesIsTable(a: Mem, b: Mem, root: nat, f: nat)
    requires SameTables(a, b, root) && !IsTable(a, root, f)
    ensures !IsTable(b, root, f)
  {
    forall p
      ensures TableAt(b, root, p) != Some(f)
    {
      assert TableAt(a, root, p) != Some(f);
    }
  }

  // ---- one page more -------------------------------------------------------------------------------

  // The state in which block b has been claimed and nothing else.
  function Taking(vm: Vm, b: nat): Vm {
    vm.(pmm := vm.pmm.(free := vm.pmm.free - BlockFrames(b)))
  }

  lemma {:induction false} TakeBlock(vm: Vm, b: nat)
    requires VmInv(vm) && WhollyFree(vm.pmm.free, b)
    ensures VmInv(Taking(vm, b)) && Grew(vm, Taking(vm, b), {}, BlockFrames(b))
    ensures BlockOwned(Taking(vm, b), b) && 512 * b + 512 <= |vm.mem|
    ensures SameWalks(vm, Taking(vm, b))
  {
    assert 512 * b + 511 in BlockFrames(b);
    assert forall p :: At(Taking(vm, b), p) == At(vm, p);
    assert Added(vm, Taking(vm, b), {}) == {};
    forall f | f in BlockFrames(b)
      ensures !IsTable(vm.mem, vm.root, f)
    {
      forall p
        ensures TableAt(vm.mem, vm.root, p) != Some(f)
      {
        assert At(vm, p) == Some(f) ==> f !in vm.pmm.free;
      }
    }
  }

  lemma {:induction false} PageInHuge(k: nat, i: nat)
    requires i < 512
    ensures SameHugePage(HeapAddr(k), PageIn(HeapAddr(k), i)) && Index(PageIn(HeapAddr(k), i), 0) == i
  {
    var h := HEAP_START / 0x1000 + 512 * k;
    assert PageIn(HeapAddr(k), i) / 0x1000 == h + i;
    assert HeapAddr(k) / 0x1000 == h;
    ShiftSteps(HeapAddr(k));
    ShiftSteps(PageIn(HeapAddr(k), i));
    assert HEAP_START / 0x1000 % 512 == 0;
  }

  lemma {:induction false} BlockFrame(b: nat, flags: Flags, w: nat)
    requires 512 * b < FRAME_LIMIT
    ensures HugeTranslation(b * BLOCK_SIZE, flags, w) == Mapped(512 * b + Index(w, 0), AsHuge(flags))
  {
    assert b * BLOCK_SIZE / 4096 == 512 * b;
  }

  lemma {:induction false} HugeBacks(a: Vm, c: Vm, k: nat, b: nat, flags: Flags)
    requires HugePageMapped(a, c, HeapAddr(k), b * BLOCK_SIZE, flags)
    requires 512 * b + 512 <= |c.mem| <= FRAME_LIMIT
    requires forall f :: f in BlockFrames(b) ==> !IsTable(c.mem, c.root, f)
    ensures BacksPage(c, HeapAddr(k), b)
  {
    hide Walk, IsTable, TableAt, HeapAddr, PageIn, HugeTranslation, Index, SameHugePage;
    forall i | 0 <= i < 512
      ensures Walk(c.mem, c.root, PageIn(HeapAddr(k), i)).Mapped? && Walk(c.mem, c.root, PageIn(HeapAddr(k), i)).frame == 512 * b + i
    {
      PageInHuge(k, i);
      BlockFrame(b, flags, PageIn(HeapAddr(k), i));
    }
  }

  // The body of the allocation loop, for page k on block b.
  function AllocAt(vm: Vm, k: nat, b: nat, flags: Flags): Vm {
    ZeroPages(MapHuge(Taking(vm, b), HeapAddr(k), b * BLOCK_SIZE, flags), HeapAddr(k), 512)
  }

  // c is a with page k on the fresh, zeroed block b.
  ghost predicate PageAdded(a: Vm, c: Vm, k: nat, b: nat, flags: Flags) {
    && VmInv(c) && Grew(a, c, PathPlaces(HeapAddr(k), 0, 2), BlockFrames(b))
    && HugePageMapped(a, c, HeapAddr(k), b * BLOCK_SIZE, flags)
    && BlockOwned(c, b) && Zeroed(c.mem, BlockFrames(b))
  }

  lemma {:induction false} OwnedKept(a: Vm, c: Vm, s: set<Pos>, x: set<nat>, b: nat)
    requires Grew(a, c, s, x) && BlockOwned(a, b)
    ensures BlockOwned(c, b)
  {
    hide BlockFrames, IsTable;
    forall f | f in BlockFrames(b)
      ensures f !in c.pmm.free && !IsTable(c.mem, c.root, f)
    {
      StaysNoTable(a, c, s, x, f);
    }
  }

  lemma {:induction false} GrewTaken(a: Vm, b: Vm, c: Vm, x: set<nat>, t: set<Pos>)
    requires Grew(a, b, {}, x) && Grew(b, c, t, {})
    ensures Grew(a, c, t, x)
  {
    GrewTrans(a, b, c, {}, t, x, {});
    assert x + {} == x && {} + t == t;
  }

  lemma {:induction false} ZeroKeeps(a: Vm, b: Vm, c: Vm, s: set<Pos>, blk: nat)
    requires VmInv(b) && Grew(a, b, s, BlockFrames(blk)) && BlockOwned(b, blk) && Zeroing(b, c, blk, 512)
    ensures VmInv(c) && Grew(a, c, s, BlockFrames(blk)) && BlockOwned(c, blk) && Zeroed(c.mem, BlockFrames(blk))
  {
    GrewData(a, b, c, s, BlockFrames(blk));
    ZeroedInv(b, c, blk);
    forall f | f in BlockFrames(blk)
      ensures !IsTable(c.mem, c.root, f)
    {
      SameTablesIsTable(b.mem, c.mem, b.root, f);
    }
  }

  lemma {:induction false} ZeroedInv(b: Vm, c: Vm, blk: nat)
    requires VmInv(b) && BlockOwned(b, blk) && Zeroing(b, c, blk, 512)
    ensures VmInv(c)
  {
    hide BlockFrames;
    assert forall p :: At(c, p) == At(b, p);
    forall p, i | At(c, p).Some?
      ensures EntryOk(Depth(p), Lookup(c.mem, At(c, p).value, i))
    {
      var t := At(b, p).value;
      assert TableAt(b.mem, b.root, p) == Some(t);
      assert IsTable(b.mem, b.root, t);
      assert t !in BlockFrames(blk);
      assert EntryOk(Depth(p), Lookup(b.mem, t, i));
    }
    forall p, q | TableAt(c.mem, c.root, p).Some? && TableAt(c.mem, c.root, p) == TableAt(c.mem, c.root, q)
      ensures p == q
    {
      assert At(b, p) == At(b, q);
    }
  }

  lemma {:induction false} AllocAtEffect(vm: Vm, k: nat, b: nat, flags: Flags)
    requires VmInv(vm) && WhollyFree(vm.pmm.free, b) && At(vm, PosOf(HeapAddr(k), 3)).None?
    requires Fits(Taking(vm, b), PathPlaces(HeapAddr(k), 0, 2))
    ensures PageAdded(vm, AllocAt(vm, k, b, flags), k, b, flags)
  {
    hide VmInv, Grew, Fits, WhollyFree, BlockFrames, HeapAddr, TableAt, Walk, HugePageMapped, BlockOwned, BacksPage, Zeroed,
         PathPlaces;
    var v, vm0 := HeapAddr(k), Taking(vm, b);
    TakeBlock(vm, b);
    assert (b * BLOCK_SIZE) % BLOCK_SIZE == 0;
    MapHugeCorrect(vm0, v, b * BLOCK_SIZE, flags);
    var vm1 := MapHuge(vm0, v, b * BLOCK_SIZE, flags);
    GrewTaken(vm, vm0, vm1, BlockFrames(b), PathPlaces(v, 0, 2));
    OwnedKept(vm0, vm1, PathPlaces(v, 0, 2), {}, b);
    OwnedBacks(vm0, vm1, k, b, flags);
    ZeroPagesEffect(vm1, v, b, 512);
    ZeroKeeps(vm, vm1, ZeroPages(vm1, v, 512), PathPlaces(v, 0, 2), b);
    HugeMappedBy(vm, vm0, vm1, ZeroPages(vm1, v, 512), v, b * BLOCK_SIZE, flags, b);
  }

  lemma {:induction false} OwnedBacks(a: Vm, c: Vm, k: nat, b: nat, flags: Flags)
    requires HugePageMapped(a, c, HeapAddr(k), b * BLOCK_SIZE, flags) && BlockOwned(c, b) && VmInv(c)
    ensures BacksPage(c, HeapAddr(k), b)
  {
    HugeBacks(a, c, k, b, flags);
  }

  lemma {:induction false} HugeMappedBy(a: Vm, a': Vm, c: Vm, c': Vm, v: nat, phys: nat, flags: Flags, b: nat)
    requires SameWalks(a, a') && HugePageMapped(a', c, v, phys, flags) && Zeroing(c, c', b, 512)
    ensures HugePageMapped(a, c', v, phys, flags)
  {
  }

  lemma {:induction false} NewBlockDiffers(vm: Vm, blocks: seq<nat>, b: nat)
    requires HeapInv(vm, blocks) && WhollyFree(vm.pmm.free, b)
    ensures forall i :: 0 <= i < |blocks| ==> blocks[i] != b
  {
    forall i | 0 <= i < |blocks|
      ensures blocks[i] != b
    {
      assert BlockOwned(vm, blocks[i]);
      assert 512 * b in BlockFrames(b);
    }
  }

  lemma {:induction false} WalksExtend(a: Vm, c: Vm, blocks: seq<nat>, b: nat, flags: Flags)
    requires HeapWalks(a, blocks, 0) && |blocks| < Cap(a) == Cap(c) <= HUGE_COUNT && 512 * b < FRAME_LIMIT
    requires HugePageMapped(a, c, HeapAddr(|blocks|), b * BLOCK_SIZE, flags)
    ensures HeapWalks(c, blocks + [b], 0)
  {
    hide Walk, HugeTranslation, Index, SameHugePage, HeapAddr;
    forall w | HeapIndex(w) < Cap(c)
      ensures if HeapIndex(w) < |blocks + [b]| then
        && Walk(c.mem, c.root, w).Mapped?
        && Walk(c.mem, c.root, w).frame == 512 * (blocks + [b])[HeapIndex(w)] + Index(w, 0)
      else Walk(c.mem, c.root, w) == Unmapped
    {
      HeapPageOf(|blocks|, w);
      BlockFrame(b, flags, w);
    }
  }

  lemma {:induction false} PtsAbsent(a: Vm, c: Vm, v: nat, x: set<nat>)
    requires Grew(a, c, PathPlaces(v, 0, 2), x)
    ensures forall w :: At(a, PosOf(w, 3)).None? ==> At(c, PosOf(w, 3)).None?
  {
    forall w | At(a, PosOf(w, 3)).None?
      ensures At(c, PosOf(w, 3)).None?
    {
      NotOnPath(v, w);
    }
  }

  lemma {:induction false} HeapExtends(a: Vm, c: Vm, blocks: seq<nat>, b: nat, flags: Flags)
    requires HeapInv(a, blocks) && |blocks| < Cap(a) && WhollyFree(a.pmm.free, b)
    requires PageAdded(a, c, |blocks|, b, flags)
    ensures HeapInv(c, blocks + [b])
  {
    hide VmInv, BlockOwned, HeapWalks, HugePageMapped, WhollyFree, PathPlaces, Zeroed, TableAt, Walk;
    var s, x := PathPlaces(HeapAddr(|blocks|), 0, 2), BlockFrames(b);
    CapSmall(a);
    NewBlockDiffers(a, blocks, b);
    BlockBelow(c, b);
    WalksExtend(a, c, blocks, b, flags);
    PtsAbsent(a, c, HeapAddr(|blocks|), x);
    forall k | 0 <= k < |blocks + [b]|
      ensures BlockOwned(c, (blocks + [b])[k])
    {
      if k < |blocks| {
        OwnedKept(a, c, s, x, blocks[k]);
      }
    }
  }

  lemma {:induction false} CapSmall(vm: Vm)
    requires vm.pmm.bytes == (vm.pmm.total + 7) / 8 < 0x8000_0000
    ensures Cap(vm) <= 0x200_0000
  {
  }

  lemma {:induction false} BlockBelow(vm: Vm, b: nat)
    requires VmInv(vm) && BlockOwned(vm, b)
    ensures 512 * b < FRAME_LIMIT
  {
  }

  // vmm_alloc_huge_page, one page: page |blocks| on the lowest wholly free block, zeroed.
  lemma {:induction false} AllocOneCorrect(vm: Vm, blocks: seq<nat>, b: nat, flags: Flags)
    requires HeapInv(vm, blocks) && |blocks| < Cap(vm)
    requires FirstBlock(vm.pmm.free, 0, vm.pmm.bytes / 64) == Some(b)
    requires Fits(Taking(vm, b), PathPlaces(HeapAddr(|blocks|), 0, 2))
    ensures var c := AllocOne(vm, HeapAddr(|blocks|), flags);
      HeapInv(c, blocks + [b]) && PageAdded(vm, c, |blocks|, b, flags)
  {
    hide PageAdded, HeapInvFrom, Fits, WhollyFree, TableAt, Walk, PathPlaces;
    HeapPtAbsent(vm, blocks);
    AllocAtEffect(vm, |blocks|, b, flags);
    HeapExtends(vm, AllocAt(vm, |blocks|, b, flags), blocks, b, flags);
  }

  lemma {:induction false} HeapPtAbsent(vm: Vm, blocks: seq<nat>)
    requires HeapInv(vm, blocks) && |blocks| < Cap(vm)
    ensures VmInv(vm) && At(vm, PosOf(HeapAddr(|blocks|), 3)).None?
  {
    CapSmall(vm);
    HeapPageOf(|blocks|, 0);
  }

  // ---- one page less ---------------------------------------------------------------------------------

  // From a to c the frames x were given back; tables and contents of other frames stayed.
  ghost predicate Gave(a: Vm, c: Vm, x: set<nat>) {
    && c.root == a.root && |c.mem| == |a.mem|
    && c.pmm.total == a.pmm.total && c.pmm.bytes == a.pmm.bytes
    && (forall p :: At(c, p) == At(a, p))
    && c.pmm.free == a.pmm.free + x
    && forall f :: 0 <= f < |a.mem| && !IsTable(a.mem, a.root, f) ==> c.mem[f] == a.mem[f]
  }

  // Where a 2 MB leaf maps v, the entries of the path are as the reset reads them.
  predicate HugeLeafAt(vm: Vm, v: nat, b: nat) {
    && At(vm, PosOf(v, 1)).Some? && At(vm, PosOf(v, 2)).Some?
    && Lookup(vm.mem, vm.root, Index(v, 3)).frame == At(vm, PosOf(v, 1)).value
    && Lookup(vm.mem, At(vm, PosOf(v, 1)).value, Index(v, 2)).frame == At(vm, PosOf(v, 2)).value
    && Lookup(vm.mem, At(vm, PosOf(v, 2)).value, Index(v, 1)).frame == 512 * b
  }

  lemma {:induction false} PathEntries(vm: Vm, v: nat)
    requires At(vm, PosOf(v, 2)).Some?
    ensures At(vm, PosOf(v, 1)).Some?
    ensures Lookup(vm.mem, vm.root, Index(v, 3)).frame == At(vm, PosOf(v, 1)).value
    ensures Lookup(vm.mem, At(vm, PosOf(v, 1)).value, Index(v, 2)).frame == At(vm, PosOf(v, 2)).value
  {
    PathStep(v, 0);
    PathStep(v, 1);
    assert At(vm, PosOf(v, 0)) == Some(vm.root);
  }

  lemma {:induction false} HugeLeafFound(vm: Vm, v: nat, b: nat)
    requires VmInv(vm) && At(vm, PosOf(v, 3)).None?
    requires Walk(vm.mem, vm.root, v).Mapped? && Walk(vm.mem, vm.root, v).frame == 512 * b + Index(v, 0)
    ensures HugeLeafAt(vm, v, b)
  {
    WalkTables(vm.mem, vm.root, v);
    PathEntries(vm, v);
    PathStep(v, 1);
    PathStep(v, 2);
    var e := Lookup(vm.mem, At(vm, PosOf(v, 2)).value, Index(v, 1));
    assert EntryOk(Depth(PosOf(v, 2)), e);
  }

  lemma {:induction false} HeapPdEntry(vm: Vm, blocks: seq<nat>, k: nat)
    requires HeapInvFrom(vm, blocks, k) && k < |blocks|
    ensures HugeLeafAt(vm, HeapAddr(k), blocks[k])
  {
    hide VmInv, TableAt, Walk, PosOf, Index, HeapAddr, IsTable, HugeLeafAt, HeapIndex;
    CapSmall(vm);
    HeapPageOf(k, HeapAddr(k));
    HugeLeafFound(vm, HeapAddr(k), blocks[k]);
  }

  lemma {:induction false} FreeBlockNext(s: Pmm, b: nat)
    requires 512 * b + 512 <= s.total && s.bytes == (s.total + 7) / 8
    ensures Free2mbNext(s, 512 * b * FRAME_SIZE) == s.(free := s.free + BlockFrames(b))
  {
    assert 512 * b * FRAME_SIZE / FRAME_SIZE == 512 * b;
    assert 512 * b * FRAME_SIZE / BLOCK_SIZE == b;
  }

  // The state after the PD entry of page k is cleared and block b returned.
  function Released(vm: Vm, k: nat, pd: nat, b: nat): Vm {
    vm.(pmm := vm.pmm.(free := vm.pmm.free + BlockFrames(b)), mem := Store(vm.mem, pd, Index(HeapAddr(k), 1), ZERO))
  }

  lemma {:induction false} ResetIsRelease(vm: Vm, blocks: seq<nat>, k: nat)
    requires HeapInvFrom(vm, blocks, k) && k < |blocks| && At(vm, PosOf(HeapAddr(k), 2)).Some?
    ensures ResetOne(vm, HeapAddr(k)) == Released(vm, k, At(vm, PosOf(HeapAddr(k), 2)).value, blocks[k])
  {
    hide VmInv, HeapWalks, IsTable, TableAt, BlockFrames;
    HeapPdEntry(vm, blocks, k);
    assert BlockOwned(vm, blocks[k]);
    FreeBlockNext(vm.pmm, blocks[k]);
  }

  lemma {:induction false} ClearedSlot(vm: Vm, k: nat, pd: nat)
    requires VmInv(vm) && At(vm, PosOf(HeapAddr(k), 2)) == Some(pd) && At(vm, PosOf(HeapAddr(k), 3)).None?
    ensures var v := HeapAddr(k);
      var c := vm.(mem := Store(vm.mem, pd, Index(v, 1), ZERO));
      && VmInv(c) && Grew(vm, c, {}, {}) && (forall p :: At(c, p) == At(vm, p))
      && forall w :: Walk(c.mem, c.root, w) == if SameHugePage(v, w) then Unmapped else Walk(vm.mem, vm.root, w)
  {
    hide VmInv, Grew, Index, Walk, TableAt, SameHugePage, PosOf, HeapAddr;
    EntryBits(0, 0, ZERO.flags);
    PdWriteEffect(vm, HeapAddr(k), pd, ZERO);
  }

  // c is a with page k gone: its block free again, its translation removed.
  ghost predicate PageRemoved(a: Vm, c: Vm, k: nat, b: nat) {
    && VmInv(c) && Gave(a, c, BlockFrames(b))
    && forall w :: Walk(c.mem, c.root, w) == if SameHugePage(HeapAddr(k), w) then Unmapped else Walk(a.mem, a.root, w)
  }

  lemma {:induction false} FreedInv(a: Vm, c: Vm, b: nat)
    requires VmInv(a) && BlockOwned(a, b)
    requires c == a.(pmm := a.pmm.(free := a.pmm.free + BlockFrames(b)))
    ensures VmInv(c)
  {
    hide BlockFrames;
    assert forall p :: At(c, p) == At(a, p);
    forall p | At(c, p).Some?
      ensures At(c, p).value !in BlockFrames(b)
    {
      assert TableAt(a.mem, a.root, p) == Some(At(a, p).value);
      assert IsTable(a.mem, a.root, At(a, p).value);
    }
    BlockBounds(b);
  }

  lemma {:induction false} BlockBounds(b: nat)
    ensures forall f :: f in BlockFrames(b) ==> 512 * b <= f < 512 * b + 512
  {
  }

  lemma {:induction false} ReleaseEffect(vm: Vm, k: nat, pd: nat, b: nat)
    requires VmInv(vm) && At(vm, PosOf(HeapAddr(k), 2)) == Some(pd) && At(vm, PosOf(HeapAddr(k), 3)).None?
    requires BlockOwned(vm, b)
    ensures PageRemoved(vm, Released(vm, k, pd, b), k, b)
  {
    hide VmInv, HeapAddr, Walk, PosOf, SameHugePage, BlockFrames, Index;
    ClearedSlot(vm, k, pd);
    var m := vm.(mem := Store(vm.mem, pd, Index(HeapAddr(k), 1), ZERO));
    OwnedKept(vm, m, {}, {}, b);
    FreedInv(m, Released(vm, k, pd, b), b);
    assert TableAt(vm.mem, vm.root, PosOf(HeapAddr(k), 2)) == Some(pd);
    assert IsTable(vm.mem, vm.root, pd);
  }

  lemma {:induction false} ResetOneCorrect(vm: Vm, blocks: seq<nat>, k: nat)
    requires HeapInvFrom(vm, blocks, k) && k < |blocks|
    ensures PageRemoved(vm, ResetOne(vm, HeapAddr(k)), k, blocks[k])
  {
    hide VmInv, HeapWalks, TableAt, Walk, BlockOwned, PosOf, PageRemoved;
    HeapPdEntry(vm, blocks, k);
    CapSmall(vm);
    HeapPageOf(k, 0);
    ResetIsRelease(vm, blocks, k);
    ReleaseEffect(vm, k, At(vm, PosOf(HeapAddr(k), 2)).value, blocks[k]);
  }

  lemma {:induction false} WalksShrink(a: Vm, c: Vm, blocks: seq<nat>, k: nat)
    requires HeapWalks(a, blocks, k) && k < |blocks| <= Cap(a) == Cap(c) <= HUGE_COUNT
    requires forall w :: Walk(c.mem, c.root, w) == if SameHugePage(HeapAddr(k), w) then Unmapped else Walk(a.mem, a.root, w)
    ensures HeapWalks(c, blocks, k + 1)
  {
    hide Walk, Index, SameHugePage, HeapAddr;
    forall w | HeapIndex(w) < Cap(c)
      ensures if k + 1 <= HeapIndex(w) < |blocks| then
        && Walk(c.mem, c.root, w).Mapped?
        && Walk(c.mem, c.root, w).frame == 512 * blocks[HeapIndex(w)] + Index(w, 0)
      else Walk(c.mem, c.root, w) == Unmapped
    {
      HeapPageOf(k, w);
    }
  }

  lemma {:induction false} OwnedGave(a: Vm, c: Vm, b: nat, b': nat)
    requires Gave(a, c, BlockFrames(b)) && BlockOwned(a, b') && b != b'
    ensures BlockOwned(c, b')
  {
    hide TableAt;
    forall f | f in BlockFrames(b')
      ensures f !in c.pmm.free && !IsTable(c.mem, c.root, f)
    {
      forall p
        ensures TableAt(c.mem, c.root, p) != Some(f)
      {
        assert At(c, p) == At(a, p);
        assert TableAt(a.mem, a.root, p) != Some(f);
      }
    }
  }

  lemma {:induction false} HeapShrinks(a: Vm, c: Vm, blocks: seq<nat>, k: nat)
    requires HeapInvFrom(a, blocks, k) && k < |blocks|
    requires PageRemoved(a, c, k, blocks[k])
    ensures HeapInvFrom(c, blocks, k + 1)
  {
    hide VmInv, BlockOwned, HeapWalks, TableAt, Walk, BlockFrames;
    CapSmall(a);
    WalksShrink(a, c, blocks, k);
    forall i | k + 1 <= i < |blocks|
      ensures BlockOwned(c, blocks[i])
    {
      OwnedGave(a, c, blocks[k], blocks[i]);
    }
  }

  // The frames of a list of blocks.
  function BlockUnion(blocks: seq<nat>): set<nat> {
    set i, f | 0 <= i < |blocks| && f in BlockFrames(blocks[i]) :: f
  }

  lemma {:induction false} UnionFirst(blocks: seq<nat>, k: nat)
    requires k < |blocks|
    ensures BlockUnion(blocks[k..]) == BlockFrames(blocks[k]) + BlockUnion(blocks[k + 1..])
  {
    hide BlockFrames;
    forall f | f in BlockUnion(blocks[k..])
      ensures f in BlockFrames(blocks[k]) + BlockUnion(blocks[k + 1..])
    {
      var i :| 0 <= i < |blocks[k..]| && f in BlockFrames(blocks[k..][i]);
      if i > 0 {
        assert blocks[k..][i] == blocks[k + 1..][i - 1];
      }
    }
    forall f | f in BlockUnion(blocks[k + 1..])
      ensures f in BlockUnion(blocks[k..])
    {
      var i :| 0 <= i < |blocks[k + 1..]| && f in BlockFrames(blocks[k + 1..][i]);
      assert blocks[k + 1..][i] == blocks[k..][i + 1];
    }
    assert blocks[k..][0] == blocks[k];
  }

  lemma {:induction false} UnionLast(blocks: seq<nat>, b: nat)
    ensures BlockUnion(blocks + [b]) == BlockUnion(blocks) + BlockFrames(b)
  {
    hide BlockFrames;
    var more := blocks + [b];
    forall f | f in BlockUnion(blocks)
      ensures f in BlockUnion(more)
    {
      var i :| 0 <= i < |blocks| && f in BlockFrames(blocks[i]);
      assert more[i] == blocks[i];
    }
    assert more[|blocks|] == b;
  }

  // What the reset did from page k on: those pages are unmapped, their blocks free.
  ghost predicate Emptied(a: Vm, c: Vm, blocks: seq<nat>, k: nat)
    requires k <= |blocks|
  {
    && Gave(a, c, BlockUnion(blocks[k..]))
    && forall w :: Walk(c.mem, c.root, w) == if k <= HeapIndex(w) < |blocks| then Unmapped else Walk(a.mem, a.root, w)
  }

  lemma {:induction false} GaveTrans(a: Vm, b: Vm, c: Vm, x: set<nat>, y: set<nat>)
    requires Gave(a, b, x) && Gave(b, c, y)
    ensures Gave(a, c, x + y)
  {
    forall f | 0 <= f < |a.mem| && !IsTable(a.mem, a.root, f)
      ensures c.mem[f] == a.mem[f]
    {
      forall p
        ensures TableAt(b.mem, b.root, p) != Some(f)
      {
        assert At(b, p) == At(a, p);
        assert TableAt(a.mem, a.root, p) != Some(f);
      }
    }
  }

  lemma {:induction false} EmptiedStep(a: Vm, b: Vm, c: Vm, blocks: seq<nat>, k: nat)
    requires k < |blocks| <= HUGE_COUNT
    requires PageRemoved(a, b, k, blocks[k]) && Emptied(b, c, blocks, k + 1)
    ensures Emptied(a, c, blocks, k)
  {
    hide Walk, Gave, BlockFrames, BlockUnion, SameHugePage, HeapAddr, HeapIndex, VmInv;
    UnionFirst(blocks, k);
    GaveTrans(a, b, c, BlockFrames(blocks[k]), BlockUnion(blocks[k + 1..]));
    forall w
      ensures Walk(c.mem, c.root, w) == if k <= HeapIndex(w) < |blocks| then Unmapped else Walk(a.mem, a.root, w)
    {
      HeapPageOf(k, w);
    }
  }

  lemma {:induction false} EmptiedNone(vm: Vm, blocks: seq<nat>)
    ensures Emptied(vm, vm, blocks, |blocks|)
  {
    assert blocks[|blocks|..] == [];
    assert BlockUnion([]) == {};
  }

  lemma {:induction false} ResetFromCorrect(vm: Vm, blocks: seq<nat>, k: nat)
    requires HeapInvFrom(vm, blocks, k)
    ensures var c := ResetFrom(vm, HeapAddr(|blocks|), HeapAddr(k));
      HeapInvFrom(c, blocks, |blocks|) && Emptied(vm, c, blocks, k)
    decreases |blocks| - k
  {
    hide VmInv, HeapWalks, TableAt, Walk, PageRemoved, BlockOwned, Emptied, ResetOne;
    if k < |blocks| {
      var b := ResetOne(vm, HeapAddr(k));
      ResetOneCorrect(vm, blocks, k);
      HeapShrinks(vm, b, blocks, k);
      ResetFromCorrect(b, blocks, k + 1);
      assert HeapAddr(k) + BLOCK_SIZE == HeapAddr(k + 1);
      CapSmall(vm);
      EmptiedStep(vm, b, ResetFrom(b, HeapAddr(|blocks|), HeapAddr(k + 1)), blocks, k);
    } else {
      EmptiedNone(vm, blocks);
    }
  }

  // vmm_reset_heap: no heap page is left, every block is free again, all other translations and
  // all tables are what they were.
  lemma {:induction false} ResetHeapCorrect(vm: Vm, blocks: seq<nat>)
    requires HeapInv(vm, blocks)
    ensures var c := ResetHeap(vm, HeapAddr(|blocks|));
      && HeapInv(c, []) && Gave(vm, c, BlockUnion(blocks))
      && forall w :: Walk(c.mem, c.root, w) == if HeapIndex(w) < |blocks| then Unmapped else Walk(vm.mem, vm.root, w)
  {
    hide VmInv, TableAt, Walk, BlockOwned, Gave, BlockUnion;
    ResetFromCorrect(vm, blocks, 0);
    assert blocks[0..] == blocks;
    assert HeapAddr(0) == HEAP_START;
  }
}
