/** What mapping and heap growth do when the allocator has nothing left: its failure address 0 is used. */
module VmFailure {
  import opened Wrappers
  import opened PmmSpec
  import opened Paging
  import opened PageTree
  import opened VmSpec
  import opened VmProofs
  import opened VmExact
  import opened HeapSpec
  import opened HeapProofs

  // ---- no frame for a page table ------------------------------------------------------------------

  // Frame 0 after it was made a table on a path: empty, but for the slot that leads on to frame 0 itself.
  function LoopTable(slot: nat): Table {
    if slot < 512 then ZeroTable()[slot := TableEntry(0)] else ZeroTable()
  }

  // Memory after the descent for v from table t at a level down to level stop, with no free frame and
  // no table below t: t's slot leads to frame 0, which was cleared and, where levels follow, to itself.
  function Hooked(mem: Mem, t: nat, v: nat, level: nat, stop: nat): Mem
    requires stop < level < 4
  {
    if t == 0 then PutTable(mem, 0, LoopTable(Index(v, stop + 1)))
    else Store(PutTable(mem, 0, if stop + 1 < level then LoopTable(Index(v, stop + 1)) else ZeroTable()), t, Index(v, level), TableEntry(0))
  }

  function PutTable(mem: Mem, frame: nat, t: Table): Mem {
    if frame < |mem| then mem[frame := t] else mem
  }

  predicate OutOfFrames(vm: Vm) {
    FirstFree(vm.pmm.free, 0, vm.pmm.total).None?
  }

  lemma {:induction false} SlotsBelow(v: nat, level: nat)
    requires level < 4
    ensures Index(v, level) < 512
  {
  }

  // One level with no frame left.
  lemma {:induction false} HookStep(vm: Vm, t: nat, i: nat)
    requires OutOfFrames(vm) && !Present(Lookup(vm.mem, t, i)) && i < 512
    ensures NextTable(vm, t, i) == (vm.(mem := Store(Clear(vm.mem, 0), t, i, TableEntry(0))), 0)
  {
  }

  lemma {:induction false} LoopSlot(slot: nat, i: nat)
    requires i < 512
    ensures Present(LoopTable(slot)[i]) <==> slot == i
    ensures slot == i ==> LoopTable(slot)[i].frame == 0
  {
    EntryBits(0, 0, ZERO.flags);
  }

  // One level from frame 0, which is empty or leads to itself.
  lemma {:induction false} LoopStep(vm: Vm, slot: nat, i: nat)
    requires OutOfFrames(vm) && |vm.mem| > 0 && i < 512 && vm.mem[0] == LoopTable(slot)
    ensures NextTable(vm, 0, i) == (vm.(mem := PutTable(vm.mem, 0, LoopTable(i))), 0)
  {
    LoopSlot(slot, i);
    if slot == i {
      assert PutTable(vm.mem, 0, LoopTable(i)) == vm.mem;
    } else {
      HookStep(vm, 0, i);
      assert Store(Clear(vm.mem, 0), 0, i, TableEntry(0)) == PutTable(vm.mem, 0, LoopTable(i));
    }
  }

  // Going on from there.
  lemma {:induction false} LoopDescend(vm: Vm, v: nat, level: nat, stop: nat, slot: nat)
    requires OutOfFrames(vm) && |vm.mem| > 0 && stop < level < 4 && vm.mem[0] == LoopTable(slot)
    ensures Descend(vm, 0, v, level, stop) == (vm.(mem := PutTable(vm.mem, 0, LoopTable(Index(v, stop + 1)))), 0)
    decreases level
  {
    hide LoopTable, NextTable;
    var i := Index(v, level);
    SlotsBelow(v, level);
    LoopStep(vm, slot, i);
    var b := vm.(mem := PutTable(vm.mem, 0, LoopTable(i)));
    if stop + 1 < level {
      LoopDescend(b, v, level - 1, stop, i);
      assert PutTable(b.mem, 0, LoopTable(Index(v, stop + 1))) == PutTable(vm.mem, 0, LoopTable(Index(v, stop + 1)));
    }
  }

  // The rest of a descent whose next table is absent, with no frame left.
  lemma {:induction false} HookDescend(vm: Vm, t: nat, v: nat, level: nat, stop: nat)
    requires OutOfFrames(vm) && 0 < |vm.mem| && t < |vm.mem| && stop < level < 4
    requires !Present(Lookup(vm.mem, t, Index(v, level)))
    ensures Descend(vm, t, v, level, stop) == (vm.(mem := Hooked(vm.mem, t, v, level, stop)), 0)
  {
    hide NextTable;
    var i := Index(v, level);
    SlotsBelow(v, level);
    SlotsBelow(v, stop + 1);
    HookStep(vm, t, i);
    var b := vm.(mem := Store(Clear(vm.mem, 0), t, i, TableEntry(0)));
    if stop + 1 < level {
      assert b.mem[0] == LoopTable(if t == 0 then i else 512);
      LoopDescend(b, v, level - 1, stop, if t == 0 then i else 512);
    }
    assert Descend(vm, t, v, level, stop).0.mem == Hooked(vm.mem, t, v, level, stop);
  }

  lemma {:induction false} NothingDone(vm: Vm, v: nat, d: nat)
    requires d < 4
    ensures Grew(vm, vm, PathPlaces(v, d, d), {}) && SameWalks(vm, vm)
  {
    GrewRefl(vm);
  }

  lemma {:induction false} NothingFree(vm: Vm)
    requires vm.pmm.free == {}
    ensures OutOfFrames(vm)
  {
  }

  lemma {:induction false} NoFitRest(a: Vm, b: Vm, s: set<Pos>, t: set<Pos>)
    requires Grew(a, b, s, {}) && VmInv(b) && !Fits(a, s + t)
    ensures !Fits(b, t)
  {
    GrewSize(a, b, s, {});
    GrewMissing(a, b, s, {}, t);
  }

  // A level that still works, in a descent that will not fit.
  lemma {:induction false} FailStep(vm: Vm, t: nat, v: nat, d: nat, to: nat)
    requires d < to < 4 && VmInv(vm) && At(vm, PosOf(v, d)) == Some(t)
    requires to == 3 ==> NoHugeLeafAt(vm, v)
    requires !Fits(vm, PathPlaces(v, d, to))
    requires (At(vm, PosOf(v, d + 1)).None? ==> vm.pmm.free != {})
    ensures var (b, child) := NextTable(vm, t, Index(v, 3 - d));
      && VmInv(b) && Grew(vm, b, {PosOf(v, d + 1)}, {}) && SameWalks(vm, b)
      && At(b, PosOf(v, d + 1)) == Some(child)
      && !Fits(b, PathPlaces(v, d + 1, to))
      && (to == 3 ==> NoHugeLeafAt(b, v))
  {
    hide Fits, NextTable, TableAt, Walk;
    PathStep(v, d);
    if d == 2 {
      NoHugeLeafEntry(vm, v);
    }
    NextTableEffect(vm, PosOf(v, d), t, Index(v, 3 - d));
    NoFitRest(vm, NextTable(vm, t, Index(v, 3 - d)).0, {PosOf(v, d + 1)}, PathPlaces(v, d + 1, to));
  }

  // An absent table has an absent slot above it.
  lemma {:induction false} AbsentSlot(vm: Vm, t: nat, v: nat, d: nat)
    requires d < 3 && VmInv(vm) && At(vm, PosOf(v, d)) == Some(t) && At(vm, PosOf(v, d + 1)).None?
    requires d == 2 ==> NoHugeLeafAt(vm, v)
    ensures t < |vm.mem| && !Present(Lookup(vm.mem, t, Index(v, 3 - d)))
  {
    PathStep(v, d);
    if d == 2 {
      NoHugeLeafEntry(vm, v);
    }
    assert EntryOk(Depth(PosOf(v, d)), Lookup(vm.mem, At(vm, PosOf(v, d)).value, Index(v, 3 - d)));
  }

  lemma {:induction false} NothingMissing(vm: Vm, v: nat, d: nat)
    requires d < 4
    ensures Fits(vm, PathPlaces(v, d, d))
  {
    assert Missing(vm, {}) == {};
  }

  lemma {:induction false} PathIsStep(v: nat, from: nat, to: nat)
    requires from < to < 4
    ensures PathPlaces(v, from, to) == {PosOf(v, from + 1)} + PathPlaces(v, from + 1, to)
  {
  }

  lemma {:induction false} DescendIs(vm: Vm, t: nat, v: nat, level: nat, stop: nat)
    requires stop < level < 4
    ensures var (b, child) := NextTable(vm, t, Index(v, level));
      Descend(vm, t, v, level, stop) == Descend(b, child, v, level - 1, stop)
  {
  }

  // A descent the free frames do not suffice for: the tables down to depth d take the last of them,
  // then frame 0, which was not free, is hooked up below as often as levels are left.
  lemma {:induction false} DescendFails(vm: Vm, t: nat, v: nat, level: nat, stop: nat) returns (a: Vm, d: nat, last: nat)
    requires stop <= level < 4 && VmInv(vm) && At(vm, PosOf(v, 3 - level)) == Some(t)
    requires stop == 0 ==> NoHugeLeafAt(vm, v)
    requires !Fits(vm, PathPlaces(v, 3 - level, 3 - stop))
    ensures 3 - level <= d < 3 - stop
    ensures VmInv(a) && Grew(vm, a, PathPlaces(v, 3 - level, d), {}) && SameWalks(vm, a) && a.pmm.free == {}
    ensures At(a, PosOf(v, d)) == Some(last) && At(a, PosOf(v, d + 1)).None?
    ensures Descend(vm, t, v, level, stop) == (a.(mem := Hooked(a.mem, last, v, 3 - d, stop)), 0)
    decreases level
  {
    hide *;
    var d0 := 3 - level;
    if level == stop {
      NothingMissing(vm, v, d0);
      assert false;
    }
    if At(vm, PosOf(v, d0 + 1)).None? && vm.pmm.free == {} {
      a, d, last := vm, d0, t;
      NothingDone(vm, v, d0);
      NothingFree(vm);
      AbsentSlot(vm, t, v, d0);
      HookDescend(vm, t, v, level, stop);
    } else {
      FailStep(vm, t, v, d0, 3 - stop);
      var (b, child) := NextTable(vm, t, Index(v, level));
      a, d, last := DescendFails(b, child, v, level - 1, stop);
      DescendIs(vm, t, v, level, stop);
      PathIsStep(v, d0, d);
      GrewThen(vm, b, a, {PosOf(v, d0 + 1)}, PathPlaces(v, d0 + 1, d), PathPlaces(v, d0, d));
      SameWalksJoin(vm, b, a);
    }
  }

  lemma {:induction false} SameWalksJoin(a: Vm, b: Vm, c: Vm)
    requires SameWalks(a, b) && SameWalks(b, c)
    ensures SameWalks(a, c)
  {
  }

  // vmm_map_virt_to_phys without enough frames: after the tables down to depth d, the last slot that
  // is reached leads to frame 0, which is wiped, leads to itself for the levels left, and holds the leaf.
  // Whatever frame 0 held is lost, and the allocator gave it to nobody.
  lemma {:induction false} MapPageFails(vm: Vm, v: nat, phys: nat, flags: Flags) returns (a: Vm, d: nat, last: nat)
    requires VmInv(vm) && NoHugeLeafAt(vm, v) && !Fits(vm, PathPlaces(v, 0, 3))
    ensures d < 3 && VmInv(a) && Grew(vm, a, PathPlaces(v, 0, d), {}) && SameWalks(vm, a) && a.pmm.free == {}
    ensures At(a, PosOf(v, d)) == Some(last) && At(a, PosOf(v, d + 1)).None?
    ensures MapPage(vm, v, phys, flags) ==
      a.(mem := Store(Hooked(a.mem, last, v, 3 - d, 0), 0, Index(v, 0), LeafEntry(phys, flags)))
  {
    hide Grew, VmInv, Fits, NoHugeLeafAt, Walk, TableAt, Hooked, Descend, PathPlaces;
    RootPlace(vm, v);
    a, d, last := DescendFails(vm, vm.root, v, 3, 0);
  }

  // vmm_map_virt_to_phys_huge_page without enough frames: the same, with the 2 MB leaf in frame 0.
  lemma {:induction false} MapHugeFails(vm: Vm, v: nat, phys: nat, flags: Flags) returns (a: Vm, d: nat, last: nat)
    requires VmInv(vm) && !Fits(vm, PathPlaces(v, 0, 2))
    ensures d < 2 && VmInv(a) && Grew(vm, a, PathPlaces(v, 0, d), {}) && SameWalks(vm, a) && a.pmm.free == {}
    ensures At(a, PosOf(v, d)) == Some(last) && At(a, PosOf(v, d + 1)).None?
    ensures MapHuge(vm, v, phys, flags) ==
      a.(mem := Store(Hooked(a.mem, last, v, 3 - d, 1), 0, Index(v, 1), HugeEntry(phys, flags)))
  {
    hide Grew, VmInv, Fits, NoHugeLeafAt, Walk, TableAt, Hooked, Descend, PathPlaces;
    RootPlace(vm, v);
    a, d, last := DescendFails(vm, vm.root, v, 3, 1);
  }

  // ---- two pages mapped without frames -----------------------------------------------------------

  // v's PT is missing, its PD is there, no frame is free.
  ghost predicate LacksPt(vm: Vm, v: nat) {
    && VmInv(vm) && vm.pmm.free == {} && NoHugeLeafAt(vm, v)
    && At(vm, PosOf(v, 2)).Some? && At(vm, PosOf(v, 2)).value != 0 && At(vm, PosOf(v, 3)).None?
  }

  function PdOf(vm: Vm, v: nat): nat {
    match At(vm, PosOf(v, 2))
    case None => 0
    case Some(pd) => pd
  }

  // What mapping such a page does: frame 0 becomes its PT, with nothing else in it.
  lemma {:induction false} MapWithoutPt(vm: Vm, v: nat, phys: nat, flags: Flags)
    requires LacksPt(vm, v)
    ensures MapPage(vm, v, phys, flags) ==
      vm.(mem := Store(Store(Clear(vm.mem, 0), PdOf(vm, v), Index(v, 1), TableEntry(0)), 0, Index(v, 0), LeafEntry(phys, flags)))
  {
    hide VmInv, NoHugeLeafAt, Walk, TableAt, Store, Clear;
    var pd := PdOf(vm, v);
    AbsentSlot(vm, pd, v, 2);
    LinksOnPath(vm, v);
    NothingFree(vm);
    HookStep(vm, pd, Index(v, 1));
    DescendAbsent(vm, v, At(vm, PosOf(v, 1)).value, pd);
  }

  lemma {:induction false} DescendAbsent(vm: Vm, v: nat, pdpt: nat, pd: nat)
    requires Present(Lookup(vm.mem, vm.root, Index(v, 3))) && Lookup(vm.mem, vm.root, Index(v, 3)).frame == pdpt
    requires Present(Lookup(vm.mem, pdpt, Index(v, 2))) && Lookup(vm.mem, pdpt, Index(v, 2)).frame == pd
    ensures Descend(vm, vm.root, v, 3, 0) == NextTable(vm, pd, Index(v, 1))
  {
    var (b, child) := NextTable(vm, pd, Index(v, 1));
    assert Descend(vm, pdpt, v, 2, 0) == Descend(vm, pd, v, 1, 0);
    assert Descend(vm, pd, v, 1, 0) == Descend(b, child, v, 0, 0);
  }

  // The first such page looks right: its translation and all others are what they should be.
  lemma {:induction false} FirstWithoutPt(vm: Vm, v: nat, phys: nat, flags: Flags)
    requires LacksPt(vm, v) && !IsTable(vm.mem, vm.root, 0)
    ensures var b := MapPage(vm, v, phys, flags);
      && VmInv(b) && b.pmm == vm.pmm && PageMapped(vm, b, v, phys, flags)
      && forall p :: At(b, p) == if p == PosOf(v, 3) then Some(0) else At(vm, p)
  {
    hide NoHugeLeafAt, Walk, TableAt, Store, Clear, PageTranslation;
    var pd, i := PdOf(vm, v), Index(v, 1);
    MapWithoutPt(vm, v, phys, flags);
    AbsentSlot(vm, pd, v, 2);
    PathStep(v, 2);
    NothingFree(vm);
    LinkedTables(vm, PosOf(v, 2), pd, i, 0);
    LinkedInv(vm, PosOf(v, 2), pd, i, 0);
    var a := Linked(vm, pd, i, 0);
    PageLeafEffect(a, v, 0, phys, flags);
    var b := MapPage(vm, v, phys, flags);
    assert b == a.(mem := Store(a.mem, 0, Index(v, 0), LeafEntry(phys, flags)));
    assert forall p :: At(b, p) == At(a, p);
  }

  // Rewriting a PT changes no table.
  lemma {:induction false} PtContents(mem: Mem, root: nat, f: nat, t: Table, p: Pos)
    requires f < |mem| && forall q :: TableAt(mem, root, q) == Some(f) ==> Depth(q) == 3
    ensures TableAt(mem[f := t], root, p) == TableAt(mem, root, p)
  {
    match p
    case Root =>
    case Child(q, i) => PtContents(mem, root, f, t, q);
  }

  // A second parent for a PT.
  lemma {:induction false} SecondParent(mem: Mem, root: nat, pos: Pos, t: nat, i: nat, p: Pos)
    requires IsTree(mem, root) && TableAt(mem, root, pos) == Some(t) && Depth(pos) == 2
    requires t < |mem| && i < 512 && !Present(mem[t][i])
    ensures TableAt(Store(mem, t, i, TableEntry(0)), root, p) == if p == Child(pos, i) then Some(0) else TableAt(mem, root, p)
  {
    EntryBits(0, 0, ZERO.flags);
    match p
    case Root =>
    case Child(q, j) =>
      SecondParent(mem, root, pos, t, i, q);
      if TableAt(mem, root, q) == Some(t) {
        assert q == pos;
      }
  }

  // The tables after a second page was mapped that way: frame 0 has two parents.
  lemma {:induction false} SecondTables(b: Vm, v: nat, w: nat, phys: nat, flags: Flags)
    requires LacksPt(b, w) && At(b, PosOf(v, 3)) == Some(0)
    ensures var c := MapPage(b, w, phys, flags);
      && At(c, PosOf(v, 3)) == Some(0) && At(c, PosOf(w, 3)) == Some(0)
      && 0 < |c.mem| && c.mem[0] == ZeroTable()[Index(w, 0) := LeafEntry(phys, flags)]
  {
    hide NoHugeLeafAt, Walk;
    var t, i, mem1 := PdOf(b, w), Index(w, 1), Clear(b.mem, 0);
    MapWithoutPt(b, w, phys, flags);
    AbsentSlot(b, t, w, 2);
    PathStep(w, 2);
    PathStep(v, 2);
    forall p
      ensures TableAt(mem1, b.root, p) == TableAt(b.mem, b.root, p)
    {
      PtContents(b.mem, b.root, 0, ZeroTable(), p);
    }
    var mem2 := Store(mem1, t, i, TableEntry(0));
    forall p
      ensures TableAt(mem2, b.root, p) == if p == PosOf(w, 3) then Some(0) else TableAt(b.mem, b.root, p)
    {
      SecondParent(mem1, b.root, PosOf(w, 2), t, i, p);
    }
    PtContents(mem2, b.root, 0, mem2[0][Index(w, 0) := LeafEntry(phys, flags)], PosOf(v, 3));
    PtContents(mem2, b.root, 0, mem2[0][Index(w, 0) := LeafEntry(phys, flags)], PosOf(w, 3));
  }

  // Mapping a second page without frames takes the first one away: both go through frame 0, which
  // now holds the second page only.
  lemma {:induction false} SecondTakesFirst(vm: Vm, v: nat, physV: nat, flagsV: Flags, w: nat, physW: nat, flagsW: Flags)
    requires LacksPt(vm, v) && !IsTable(vm.mem, vm.root, 0)
    requires LacksPt(MapPage(vm, v, physV, flagsV), w)
    ensures var b := MapPage(vm, v, physV, flagsV);
      var c := MapPage(b, w, physW, flagsW);
      && Walk(b.mem, b.root, v) == PageTranslation(physV, flagsV)
      && Walk(c.mem, c.root, w) == PageTranslation(physW, flagsW)
      && Walk(c.mem, c.root, v) == if Index(v, 0) == Index(w, 0) then PageTranslation(physW, flagsW) else Unmapped
  {
    hide NoHugeLeafAt, VmInv, MapPage, Walk, TableAt, PosOf, LacksPt;
    FirstWithoutPt(vm, v, physV, flagsV);
    var b := MapPage(vm, v, physV, flagsV);
    var c := MapPage(b, w, physW, flagsW);
    SecondTables(b, v, w, physW, flagsW);
    WalkTables(c.mem, c.root, v);
    WalkTables(c.mem, c.root, w);
    SlotsBelow(v, 0);
    SlotsBelow(w, 0);
    EntryBits(0, physW, flagsW);
  }
}
