/** Exactly when mapping does what it is for: neither function checks what the allocator gave. */
module VmExact {
  import opened Wrappers
  import opened Sets
  import opened PmmSpec
  import opened Paging
  import opened PageTree
  import opened VmSpec
  import opened VmProofs
  import opened HeapSpec
  import opened HeapProofs

  // vmm_map_virt_to_phys adds its tables on free frames and maps the page if and only if no
  // 2 MB leaf maps v already and the free frames suffice for the missing tables.
  lemma {:induction false} MapPageExact(vm: Vm, v: nat, phys: nat, flags: Flags)
    requires VmInv(vm)
    ensures var b := MapPage(vm, v, phys, flags);
      VmInv(b) && Grew(vm, b, PathPlaces(v, 0, 3), {}) && PageMapped(vm, b, v, phys, flags)
      <==> NoHugeLeafAt(vm, v) && Fits(vm, PathPlaces(v, 0, 3))
  {
    hide *;
    var b := MapPage(vm, v, phys, flags);
    if NoHugeLeafAt(vm, v) && Fits(vm, PathPlaces(v, 0, 3)) {
      MapPageCorrect(vm, v, phys, flags);
    }
    if VmInv(b) && Grew(vm, b, PathPlaces(v, 0, 3), {}) {
      GrewFits(vm, b, PathPlaces(v, 0, 3), {});
      if !NoHugeLeafAt(vm, v) {
        HugeLeafTakesNone(vm, v, phys, flags);
        InPath(v);
        TableCostsFrame(vm, b, PathPlaces(v, 0, 3), PosOf(v, 3));
      }
      FitsIs(vm, PathPlaces(v, 0, 3));
    }
  }

  // A missing table costs a frame.
  lemma {:induction false} TableCostsFrame(a: Vm, b: Vm, s: set<Pos>, p: Pos)
    requires Grew(a, b, s, {}) && p in s && At(a, p).None?
    ensures b.pmm != a.pmm
  {
    assert p in Missing(a, s);
    assert At(b, p).value in Added(a, b, s);
  }

  lemma {:induction false} FitsIs(vm: Vm, s: set<Pos>)
    ensures Fits(vm, s) <==> |Missing(vm, s)| <= |vm.pmm.free|
  {
  }

  // With a 2 MB leaf on the way nothing is allocated.
  lemma {:induction false} HugeLeafTakesNone(vm: Vm, v: nat, phys: nat, flags: Flags)
    requires !NoHugeLeafAt(vm, v)
    ensures MapPage(vm, v, phys, flags).pmm == vm.pmm && At(vm, PosOf(v, 3)).None?
  {
    hide Descend, Walk;
    PathToLeaf(vm, v);
  }

  lemma {:induction false} InPath(v: nat)
    ensures PosOf(v, 3) in PathPlaces(v, 0, 3)
  {
    assert PathPlaces(v, 2, 3) == {PosOf(v, 3)} + PathPlaces(v, 3, 3);
    assert PathPlaces(v, 1, 3) == {PosOf(v, 2)} + PathPlaces(v, 2, 3);
  }

  // An effect that took its tables from the free frames fitted into them.
  lemma {:induction false} GrewFits(a: Vm, b: Vm, s: set<Pos>, x: set<nat>)
    requires Grew(a, b, s, x) && VmInv(b)
    ensures |Missing(a, s)| <= |a.pmm.free| - |x|
  {
    GrewSize(a, b, s, x);
  }

  // The frame field of the PD entry for v.
  function LeafFrame(vm: Vm, v: nat): nat {
    match At(vm, PosOf(v, 2))
    case None => 0
    case Some(pd) => Lookup(vm.mem, pd, Index(v, 1)).frame
  }

  // With a 2 MB leaf on the way, the leaf is taken for a page table: a word of the mapped block
  // is overwritten, every translation stays, and v gets no page table.
  lemma {:induction false} HugeLeafInTheWay(vm: Vm, v: nat, phys: nat, flags: Flags)
    requires VmInv(vm) && !NoHugeLeafAt(vm, v) && !IsTable(vm.mem, vm.root, LeafFrame(vm, v))
    ensures var b := MapPage(vm, v, phys, flags);
      && b == vm.(mem := Store(vm.mem, LeafFrame(vm, v), Index(v, 0), LeafEntry(phys, flags)))
      && SameWalks(vm, b) && At(b, PosOf(v, 3)).None?
  {
    PathToLeaf(vm, v);
    var f := LeafFrame(vm, v);
    if f < |vm.mem| {
      DataFrameWrite(vm.mem, vm.root, f, vm.mem[f][Index(v, 0) := LeafEntry(phys, flags)]);
    }
  }

  lemma {:induction false} PathToLeaf(vm: Vm, v: nat)
    requires !NoHugeLeafAt(vm, v)
    ensures Descend(vm, vm.root, v, 3, 0) == (vm, LeafFrame(vm, v))
  {
    hide Walk, TableAt;
    WalkTables(vm.mem, vm.root, v);
    PathStep(v, 2);
    assert At(vm, PosOf(v, 2)).Some?;
    LinksOnPath(vm, v);
    DescendPresent(vm, v, At(vm, PosOf(v, 1)).value, At(vm, PosOf(v, 2)).value);
  }

  lemma {:induction false} LinksOnPath(vm: Vm, v: nat)
    requires At(vm, PosOf(v, 2)).Some?
    ensures At(vm, PosOf(v, 1)).Some?
    ensures Present(Lookup(vm.mem, vm.root, Index(v, 3))) && Lookup(vm.mem, vm.root, Index(v, 3)).frame == At(vm, PosOf(v, 1)).value
    ensures var e := Lookup(vm.mem, At(vm, PosOf(v, 1)).value, Index(v, 2));
      Present(e) && e.frame == At(vm, PosOf(v, 2)).value
  {
    PathStep(v, 0);
    PathStep(v, 1);
    assert At(vm, PosOf(v, 0)) == Some(vm.root);
  }

  lemma {:induction false} DescendPresent(vm: Vm, v: nat, pdpt: nat, pd: nat)
    requires Present(Lookup(vm.mem, vm.root, Index(v, 3))) && Lookup(vm.mem, vm.root, Index(v, 3)).frame == pdpt
    requires Present(Lookup(vm.mem, pdpt, Index(v, 2))) && Lookup(vm.mem, pdpt, Index(v, 2)).frame == pd
    requires Present(Lookup(vm.mem, pd, Index(v, 1)))
    ensures Descend(vm, vm.root, v, 3, 0) == (vm, Lookup(vm.mem, pd, Index(v, 1)).frame)
  {
    assert Descend(vm, pdpt, v, 2, 0) == Descend(vm, pd, v, 1, 0);
  }

  // vmm_alloc_huge_page adds its page on a fresh block if and only if there is a wholly free
  // block and, beside it, a free frame for every missing table.
  lemma {:induction false} AllocOneExact(vm: Vm, blocks: seq<nat>, flags: Flags)
    requires HeapInv(vm, blocks) && |blocks| < Cap(vm)
    ensures var c := AllocOne(vm, HeapAddr(|blocks|), flags);
      (exists b :: HeapInv(c, blocks + [b]) && PageAdded(vm, c, |blocks|, b, flags))
      <==> exists b :: FirstBlock(vm.pmm.free, 0, vm.pmm.bytes / 64) == Some(b)
                    && Fits(Taking(vm, b), PathPlaces(HeapAddr(|blocks|), 0, 2))
  {
    hide HeapInvFrom, PageAdded, Fits, WhollyFree, AllocOne, PathPlaces;
    var c := AllocOne(vm, HeapAddr(|blocks|), flags);
    if b :| FirstBlock(vm.pmm.free, 0, vm.pmm.bytes / 64) == Some(b) && Fits(Taking(vm, b), PathPlaces(HeapAddr(|blocks|), 0, 2)) {
      AllocOneCorrect(vm, blocks, b, flags);
    }
    if b :| HeapInv(c, blocks + [b]) && PageAdded(vm, c, |blocks|, b, flags) {
      AddedWasThere(vm, blocks, c, b, flags);
    }
  }

  lemma {:induction false} AddedWasThere(vm: Vm, blocks: seq<nat>, c: Vm, b: nat, flags: Flags)
    requires HeapInv(vm, blocks) && PageAdded(vm, c, |blocks|, b, flags)
    ensures var first := FirstBlock(vm.pmm.free, 0, vm.pmm.bytes / 64);
      first.Some? && Fits(Taking(vm, first.value), PathPlaces(HeapAddr(|blocks|), 0, 2))
  {
    hide PathPlaces, HeapWalks, HugePageMapped, BlockFrames;
    var places := PathPlaces(HeapAddr(|blocks|), 0, 2);
    assert WhollyFree(vm.pmm.free, b);
    assert b < vm.pmm.bytes / 64;
    var first := FirstBlock(vm.pmm.free, 0, vm.pmm.bytes / 64).value;
    GrewFits(vm, c, places, BlockFrames(b));
    TakingSize(vm, first, places);
    BlockSize(b);
  }

  lemma {:induction false} BlockSize(b: nat)
    ensures |BlockFrames(b)| == 512
  {
    RunSize(512 * b, 512);
  }

  lemma {:induction false} TakingSize(vm: Vm, b: nat, places: set<Pos>)
    requires WhollyFree(vm.pmm.free, b)
    ensures |Taking(vm, b).pmm.free| == |vm.pmm.free| - 512
    ensures Missing(Taking(vm, b), places) == Missing(vm, places)
  {
    BlockSize(b);
    assert forall p :: At(Taking(vm, b), p) == At(vm, p);
  }
}
