/** What mapping does: one translation changes, and the tables stay a tree of claimed frames. */
module VmProofs {
  import opened Wrappers
  import opened PmmSpec
  import opened Paging
  import opened PageTree
  import opened VmSpec

  function At(vm: Vm, p: Pos): Option<nat> {
    TableAt(vm.mem, vm.root, p)
  }

  // The tables form a tree of claimed frames; PML4 and PDPT entries are links, never leaves, the 2 MB
  // leaves of PDs are aligned, and links are present and writeable and nothing else.
  ghost predicate VmInv(vm: Vm) {
    && IsTree(vm.mem, vm.root)
    && (forall p :: At(vm, p).Some? ==> At(vm, p).value < |vm.mem| && At(vm, p).value !in vm.pmm.free)
    && (forall p, i :: At(vm, p).Some? ==> EntryOk(Depth(p), Lookup(vm.mem, At(vm, p).value, i)))
    && (forall f :: f in vm.pmm.free ==> f < vm.pmm.total)
    && vm.pmm.total <= |vm.mem| <= FRAME_LIMIT
  }

  predicate BigLeaf(e: Entry) {
    Present(e) && Huge(e)
  }

  predicate EntryOk(depth: nat, e: Entry) {
    && (BigLeaf(e) ==> depth >= 2 && (depth == 2 ==> e.frame % 512 == 0))
    && (Links(depth, e) ==> e.flags == Flags(3, 0))
  }

  // The places in a set that have no table yet.
  function Missing(vm: Vm, places: set<Pos>): set<Pos> {
    set p | p in places && At(vm, p).None?
  }

  // The frames b uses for tables that a did not have.
  function Added(a: Vm, b: Vm, places: set<Pos>): set<nat> {
    set p | p in Missing(a, places) && At(b, p).Some? :: At(b, p).value
  }

  // From a to b the tables of the places were added where they were missing, on frames that
  // were free; taken went out of the free set as well. Nothing else changed hands, and frames
  // that were neither tables nor free kept their contents.
  ghost predicate Grew(a: Vm, b: Vm, places: set<Pos>, taken: set<nat>) {
    && b.root == a.root && |b.mem| == |a.mem|
    && b.pmm.total == a.pmm.total && b.pmm.bytes == a.pmm.bytes
    && taken <= a.pmm.free
    && (forall p :: p in places ==> At(b, p).Some?)
    && (forall p :: p !in places || At(a, p).Some? ==> At(b, p) == At(a, p))
    && Added(a, b, places) <= a.pmm.free - taken
    && b.pmm.free == a.pmm.free - taken - Added(a, b, places)
    && Untouched(a, b)
  }

  ghost predicate Untouched(a: Vm, b: Vm) {
    && |b.mem| == |a.mem|
    && forall f :: 0 <= f < |a.mem| && !IsTable(a.mem, a.root, f) && f !in a.pmm.free ==> b.mem[f] == a.mem[f]
  }

  // ---- composing effects ---------------------------------------------------------------------

  lemma {:induction false} GrewRefl(a: Vm)
    ensures Grew(a, a, {}, {})
  {
  }

  lemma {:induction false} GrewMissing(a: Vm, b: Vm, s: set<Pos>, x: set<nat>, t: set<Pos>)
    requires Grew(a, b, s, x)
    ensures Missing(a, s + t) == Missing(a, s) + Missing(b, t) && Missing(a, s) !! Missing(b, t)
    ensures |Missing(b, t)| == |Missing(a, s + t)| - |Missing(a, s)|
  {
  }

  lemma {:induction false} GrewAdded(a: Vm, b: Vm, c: Vm, s: set<Pos>, t: set<Pos>, x: set<nat>, y: set<nat>)
    requires Grew(a, b, s, x) && Grew(b, c, t, y)
    ensures Added(a, c, s + t) == Added(a, b, s) + Added(b, c, t)
  {
    GrewMissing(a, b, s, x, t);
    forall p | p in Missing(a, s)
      ensures At(c, p) == At(b, p)
    {
    }
  }

  lemma {:induction false} GrewTrans(a: Vm, b: Vm, c: Vm, s: set<Pos>, t: set<Pos>, x: set<nat>, y: set<nat>)
    requires Grew(a, b, s, x) && Grew(b, c, t, y)
    ensures Grew(a, c, s + t, x + y)
  {
    GrewAdded(a, b, c, s, t, x, y);
    assert b.pmm.free <= a.pmm.free;
    forall p | p in s + t
      ensures At(c, p).Some?
    {
    }
    UntouchedTrans(a, b, c, s, x);
  }

  // The same when only tables took frames.
  lemma {:induction false} GrewThen(a: Vm, b: Vm, c: Vm, s: set<Pos>, t: set<Pos>, st: set<Pos>)
    requires Grew(a, b, s, {}) && Grew(b, c, t, {}) && st == s + t
    ensures Grew(a, c, st, {})
  {
    GrewTrans(a, b, c, s, t, {}, {});
    var none: set<nat> := {};
    assert none + none == none;
  }

  // A frame that is neither a table nor free does not become a table.
  lemma {:induction false} StaysNoTable(a: Vm, b: Vm, s: set<Pos>, x: set<nat>, f: nat)
    requires Grew(a, b, s, x) && !IsTable(a.mem, a.root, f) && f !in a.pmm.free
    ensures !IsTable(b.mem, b.root, f) && f !in b.pmm.free
  {
    forall p
      ensures TableAt(b.mem, b.root, p) != Some(f)
    {
      assert TableAt(a.mem, a.root, p) != Some(f);
      assert p in Missing(a, s) && At(b, p).Some? ==> At(b, p).value in Added(a, b, s);
    }
  }

  // Writing taken frames that are no tables is part of no effect.
  lemma {:induction false} GrewData(a: Vm, b: Vm, c: Vm, s: set<Pos>, x: set<nat>)
    requires Grew(a, b, s, x) && c.root == b.root && c.pmm == b.pmm && |c.mem| == |b.mem|
    requires SameTables(b.mem, c.mem, b.root)
    requires forall f :: 0 <= f < |b.mem| && f !in x ==> c.mem[f] == b.mem[f]
    ensures Grew(a, c, s, x)
  {
    assert forall p :: At(c, p) == At(b, p);
    assert Added(a, c, s) == Added(a, b, s);
  }

  lemma {:induction false} UntouchedTrans(a: Vm, b: Vm, c: Vm, s: set<Pos>, x: set<nat>)
    requires Grew(a, b, s, x) && Untouched(b, c)
    ensures Untouched(a, c)
  {
    forall f | 0 <= f < |a.mem| && !IsTable(a.mem, a.root, f) && f !in a.pmm.free
      ensures c.mem[f] == a.mem[f]
    {
      StaysNoTable(a, b, s, x, f);
    }
  }

  // Each added table costs one frame.
  lemma {:induction false} AddedSize(a: Vm, b: Vm, m: set<Pos>)
    requires IsTree(b.mem, b.root)
    requires forall p :: p in m ==> At(a, p).None? && At(b, p).Some?
    ensures |Added(a, b, m)| == |m|
    decreases m
  {
    if m == {} {
      assert Added(a, b, m) == {};
    } else {
      var p :| p in m;
      var rest := m - {p};
      AddedSize(a, b, rest);
      assert Missing(a, m) == m && Missing(a, rest) == rest;
      assert Added(a, b, m) == Added(a, b, rest) + {At(b, p).value};
      assert At(b, p).value !in Added(a, b, rest);
    }
  }

  lemma {:induction false} GrewSize(a: Vm, b: Vm, s: set<Pos>, x: set<nat>)
    requires Grew(a, b, s, x) && IsTree(b.mem, b.root)
    ensures |Added(a, b, s)| == |Missing(a, s)|
    ensures |b.pmm.free| == |a.pmm.free| - |x| - |Missing(a, s)|
  {
    var m := Missing(a, s);
    assert Missing(a, m) == m;
    assert Added(a, b, m) == Added(a, b, s);
    AddedSize(a, b, m);
    assert |a.pmm.free - x| == |a.pmm.free| - |x|;
  }

  // ---- one level -------------------------------------------------------------------------------

  ghost predicate SameWalks(a: Vm, b: Vm) {
    forall w :: Walk(b.mem, b.root, w) == Walk(a.mem, a.root, w)
  }

  // The frame pmm_alloc gives is free, so it is in bounds and no table; clearing it is harmless.
  lemma {:induction false} FreshFrame(vm: Vm)
    requires VmInv(vm) && vm.pmm.free != {}
    ensures FirstFree(vm.pmm.free, 0, vm.pmm.total).Some?
    ensures var f := FirstFree(vm.pmm.free, 0, vm.pmm.total).value;
      && AllocNext(vm.pmm).1 / FRAME_SIZE == f && AllocNext(vm.pmm).0.free == vm.pmm.free - {f}
      && f < |vm.mem| && f in vm.pmm.free && !IsTable(vm.mem, vm.root, f)
  {
    var g :| g in vm.pmm.free;
    var f := FirstFree(vm.pmm.free, 0, vm.pmm.total).value;
    assert f * FRAME_SIZE / FRAME_SIZE == f;
    forall p
      ensures TableAt(vm.mem, vm.root, p) != Some(f)
    {
      assert At(vm, p) == Some(f) ==> f !in vm.pmm.free;
    }
  }

  // The state with an empty frame f hung into slot i of t.
  function Linked(vm: Vm, t: nat, i: nat, f: nat): Vm {
    Vm(Store(Clear(vm.mem, f), t, i, TableEntry(f)), vm.root, AllocNext(vm.pmm).0)
  }

  lemma {:induction false} LinkedTables(vm: Vm, pos: Pos, t: nat, i: nat, f: nat)
    requires VmInv(vm) && At(vm, pos) == Some(t) && Depth(pos) < 3 && i < 512
    requires !Present(Lookup(vm.mem, t, i))
    requires f < |vm.mem| && !IsTable(vm.mem, vm.root, f)
    ensures CanLink(Clear(vm.mem, f), vm.root, pos, t, i, f)
    ensures forall p :: At(Linked(vm, t, i, f), p) == if p == Child(pos, i) then Some(f) else At(vm, p)
    ensures SameWalks(vm, Linked(vm, t, i, f))
  {
    DataFrameWrite(vm.mem, vm.root, f, ZeroTable());
    var mem := Clear(vm.mem, f);
    assert t != f;
    assert SameTables(vm.mem, mem, vm.root);
    ClearedIsTree(vm.mem, mem, vm.root, f);
    forall p
      ensures At(Linked(vm, t, i, f), p) == if p == Child(pos, i) then Some(f) else At(vm, p)
    {
      LinkTables(mem, vm.root, pos, t, i, f, p);
    }
    forall w
      ensures Walk(Linked(vm, t, i, f).mem, vm.root, w) == Walk(vm.mem, vm.root, w)
    {
      LinkWalk(mem, vm.root, pos, t, i, f, w);
    }
  }

  lemma {:induction false} ClearedIsTree(mem: Mem, mem': Mem, root: nat, f: nat)
    requires SameTables(mem, mem', root) && IsTree(mem, root) && !IsTable(mem, root, f)
    ensures IsTree(mem', root) && !IsTable(mem', root, f)
  {
    forall p
      ensures TableAt(mem', root, p) != Some(f)
    {
      assert TableAt(mem, root, p) != Some(f);
    }
  }

  lemma {:induction false} LinkedInv(vm: Vm, pos: Pos, t: nat, i: nat, f: nat)
    requires VmInv(vm) && At(vm, pos) == Some(t) && Depth(pos) < 3 && i < 512
    requires !Present(Lookup(vm.mem, t, i))
    requires f < |vm.mem| && !IsTable(vm.mem, vm.root, f)
    requires AllocNext(vm.pmm).0.free == vm.pmm.free - {f} && AllocNext(vm.pmm).0.total == vm.pmm.total
    ensures VmInv(Linked(vm, t, i, f))
  {
    var b := Linked(vm, t, i, f);
    LinkedTables(vm, pos, t, i, f);
    EntryBits(f, 0, ZERO.flags);
    forall p, q | TableAt(b.mem, b.root, p).Some? && TableAt(b.mem, b.root, p) == TableAt(b.mem, b.root, q)
      ensures p == q
    {
      assert At(b, p) == At(b, q);
      assert TableAt(vm.mem, vm.root, p) != Some(f) && TableAt(vm.mem, vm.root, q) != Some(f);
    }
    forall p, j | At(b, p).Some?
      ensures EntryOk(Depth(p), Lookup(b.mem, At(b, p).value, j))
    {
      assert TableAt(vm.mem, vm.root, p) != Some(f);
      if p != Child(pos, i) {
        assert EntryOk(Depth(p), Lookup(vm.mem, At(vm, p).value, j));
      }
    }
  }

  lemma {:induction false} LinkedGrew(vm: Vm, pos: Pos, t: nat, i: nat, f: nat)
    requires VmInv(vm) && At(vm, pos) == Some(t) && Depth(pos) < 3 && i < 512
    requires !Present(Lookup(vm.mem, t, i))
    requires f < |vm.mem| && f in vm.pmm.free && !IsTable(vm.mem, vm.root, f)
    requires AllocNext(vm.pmm).0 == Claim(vm.pmm, f)
    ensures Grew(vm, Linked(vm, t, i, f), {Child(pos, i)}, {})
  {
    var b := Linked(vm, t, i, f);
    LinkedTables(vm, pos, t, i, f);
    assert At(vm, Child(pos, i)).None?;
    assert Missing(vm, {Child(pos, i)}) == {Child(pos, i)};
    assert Added(vm, b, {Child(pos, i)}) == {f};
    assert IsTable(vm.mem, vm.root, t);
  }

  // One level of the descent: the place below is there afterwards, no translation changes.
  lemma {:induction false} NextTableEffect(vm: Vm, pos: Pos, t: nat, i: nat)
    requires VmInv(vm) && At(vm, pos) == Some(t) && Depth(pos) < 3 && i < 512
    requires Depth(pos) == 2 ==> !BigLeaf(Lookup(vm.mem, t, i))
    requires At(vm, Child(pos, i)).None? ==> vm.pmm.free != {}
    ensures var (b, child) := NextTable(vm, t, i);
      && VmInv(b) && Grew(vm, b, {Child(pos, i)}, {}) && SameWalks(vm, b)
      && At(b, Child(pos, i)) == Some(child)
  {
    var (b, child) := NextTable(vm, t, i);
    if Present(Lookup(vm.mem, t, i)) {
      assert EntryOk(Depth(pos), Lookup(vm.mem, At(vm, pos).value, i));
      assert Missing(vm, {Child(pos, i)}) == {};
      assert Added(vm, b, {Child(pos, i)}) == {};
    } else {
      FreshFrame(vm);
      var f := FirstFree(vm.pmm.free, 0, vm.pmm.total).value;
      LinkedTables(vm, pos, t, i, f);
      LinkedInv(vm, pos, t, i, f);
      LinkedGrew(vm, pos, t, i, f);
    }
  }

  // ---- the descent -----------------------------------------------------------------------------

  // The places of the tables on the way to v, from depth `from` + 1 to depth `to`.
  function PathPlaces(v: nat, from: nat, to: nat): set<Pos>
    requires from <= to < 4
    decreases 4 - from
  {
    if from == to then {} else {PosOf(v, from + 1)} + PathPlaces(v, from + 1, to)
  }

  lemma {:induction false} PathStep(v: nat, d: nat)
    requires d < 3
    ensures PosOf(v, d + 1) == Child(PosOf(v, d), Index(v, 3 - d)) && Depth(PosOf(v, d)) == d
    ensures Index(v, 3 - d) < 512
  {
  }

  // No 2 MB leaf maps v: without a PT, v is not mapped.
  predicate NoHugeLeafAt(vm: Vm, v: nat) {
    At(vm, PosOf(v, 3)).None? ==> Walk(vm.mem, vm.root, v) == Unmapped
  }

  lemma {:induction false} NoHugeLeafEntry(vm: Vm, v: nat)
    requires At(vm, PosOf(v, 2)).Some? && NoHugeLeafAt(vm, v)
    ensures !BigLeaf(Lookup(vm.mem, At(vm, PosOf(v, 2)).value, Index(v, 1)))
  {
    WalkTables(vm.mem, vm.root, v);
    PathStep(v, 2);
  }

  // Room for every table a set of places still misses.
  ghost predicate Fits(vm: Vm, places: set<Pos>) {
    |Missing(vm, places)| <= |vm.pmm.free|
  }

  lemma {:induction false} FitsRest(a: Vm, b: Vm, s: set<Pos>, t: set<Pos>)
    requires Grew(a, b, s, {}) && IsTree(b.mem, b.root) && Fits(a, s + t)
    ensures Fits(b, t)
  {
    GrewSize(a, b, s, {});
    GrewMissing(a, b, s, {}, t);
  }

  lemma {:induction false} DescendStep(vm: Vm, t: nat, v: nat, d: nat, to: nat)
    requires d < to < 4 && VmInv(vm) && At(vm, PosOf(v, d)) == Some(t)
    requires to == 3 ==> NoHugeLeafAt(vm, v)
    requires Fits(vm, PathPlaces(v, d, to))
    ensures var (b, child) := NextTable(vm, t, Index(v, 3 - d));
      && VmInv(b) && Grew(vm, b, {PosOf(v, d + 1)}, {}) && SameWalks(vm, b)
      && At(b, PosOf(v, d + 1)) == Some(child)
      && Fits(b, PathPlaces(v, d + 1, to))
      && (to == 3 ==> NoHugeLeafAt(b, v))
  {
    PathStep(v, d);
    if At(vm, PosOf(v, d + 1)).None? {
      assert PosOf(v, d + 1) in Missing(vm, PathPlaces(v, d, to));
    }
    if d == 2 {
      NoHugeLeafEntry(vm, v);
    }
    NextTableEffect(vm, PosOf(v, d), t, Index(v, 3 - d));
    FitsRest(vm, NextTable(vm, t, Index(v, 3 - d)).0, {PosOf(v, d + 1)}, PathPlaces(v, d + 1, to));
  }

  // A whole descent: exactly the missing places of the path are added.
  lemma {:induction false} DescendEffect(vm: Vm, t: nat, v: nat, level: nat, stop: nat)
    requires stop <= level < 4 && VmInv(vm) && At(vm, PosOf(v, 3 - level)) == Some(t)
    requires stop == 0 ==> NoHugeLeafAt(vm, v)
    requires Fits(vm, PathPlaces(v, 3 - level, 3 - stop))
    ensures var (b, table) := Descend(vm, t, v, level, stop);
      && VmInv(b) && Grew(vm, b, PathPlaces(v, 3 - level, 3 - stop), {}) && SameWalks(vm, b)
      && At(b, PosOf(v, 3 - stop)) == Some(table)
    decreases level
  {
    hide Grew, VmInv, Fits, NoHugeLeafAt, Walk, TableAt, Missing;
    if level == stop {
      GrewRefl(vm);
    } else {
      var d := 3 - level;
      DescendStep(vm, t, v, d, 3 - stop);
      var (b, child) := NextTable(vm, t, Index(v, level));
      DescendEffect(b, child, v, level - 1, stop);
      GrewThen(vm, b, Descend(b, child, v, level - 1, stop).0,
               {PosOf(v, d + 1)}, PathPlaces(v, d + 1, 3 - stop), PathPlaces(v, d, 3 - stop));
    }
  }

  // ---- writing the leaf ------------------------------------------------------------------------

  lemma {:induction false} LeafEffect(vm: Vm, pos: Pos, t: nat, i: nat, e: Entry)
    requires VmInv(vm) && CanWriteLeaf(vm.mem, vm.root, pos, t, i, e) && Depth(pos) >= 2
    requires EntryOk(Depth(pos), e)
    ensures var b := vm.(mem := Store(vm.mem, t, i, e));
      VmInv(b) && Grew(vm, b, {}, {}) && forall p :: At(b, p) == At(vm, p)
  {
    var b := vm.(mem := Store(vm.mem, t, i, e));
    forall p
      ensures TableAt(b.mem, b.root, p) == TableAt(vm.mem, vm.root, p)
    {
      LeafTables(vm.mem, vm.root, pos, t, i, e, p);
    }
    assert forall p :: At(b, p) == At(vm, p);
    forall p, j | At(b, p).Some?
      ensures EntryOk(Depth(p), Lookup(b.mem, At(b, p).value, j))
    {
      assert At(vm, p) == Some(t) ==> p == pos;
      assert EntryOk(Depth(p), Lookup(vm.mem, At(vm, p).value, j));
    }
    assert IsTable(vm.mem, vm.root, t);
  }

  // The translation of a page a 4 KB mapping sets up.
  function PageTranslation(phys: nat, flags: Flags): Translation {
    Mapped(phys / 4096 % FRAME_LIMIT, AsLeaf(flags))
  }

  // All translations of b are those of a, but for the page of v.
  ghost predicate PageMapped(a: Vm, b: Vm, v: nat, phys: nat, flags: Flags) {
    forall w :: Walk(b.mem, b.root, w) ==
      if SamePage(v, w) then PageTranslation(phys, flags) else Walk(a.mem, a.root, w)
  }

  lemma {:induction false} PageLeafEffect(a: Vm, v: nat, pt: nat, phys: nat, flags: Flags)
    requires VmInv(a) && At(a, PosOf(v, 3)) == Some(pt)
    ensures var b := a.(mem := Store(a.mem, pt, Index(v, 0), LeafEntry(phys, flags)));
      VmInv(b) && Grew(a, b, {}, {}) && PageMapped(a, b, v, phys, flags)
  {
    var e := LeafEntry(phys, flags);
    EntryBits(0, phys, flags);
    PathStep(v, 2);
    LeafEffect(a, PosOf(v, 3), pt, Index(v, 0), e);
    forall w
      ensures Walk(Store(a.mem, pt, Index(v, 0), e), a.root, w) ==
        if SamePage(v, w) then PageTranslation(phys, flags) else Walk(a.mem, a.root, w)
    {
      PageLeafWalk(a.mem, a.root, PosOf(v, 3), pt, Index(v, 0), e, w);
      SamePageSlots(v, w);
    }
  }

  // vmm_map_virt_to_phys: the page of v gets the given frame and flags, every other
  // translation stays, and exactly the missing tables of the path leave the free set.
  lemma {:induction false} MapPageCorrect(vm: Vm, v: nat, phys: nat, flags: Flags)
    requires VmInv(vm) && NoHugeLeafAt(vm, v) && Fits(vm, PathPlaces(v, 0, 3))
    ensures var b := MapPage(vm, v, phys, flags);
      VmInv(b) && Grew(vm, b, PathPlaces(v, 0, 3), {}) && PageMapped(vm, b, v, phys, flags)
  {
    hide VmInv, Grew, Fits, NoHugeLeafAt, Walk, TableAt;
    assert At(vm, PosOf(v, 0)) == Some(vm.root) by { RootPlace(vm, v); }
    DescendEffect(vm, vm.root, v, 3, 0);
    var (a, pt) := Descend(vm, vm.root, v, 3, 0);
    PageLeafEffect(a, v, pt, phys, flags);
    GrewThen(vm, a, MapPage(vm, v, phys, flags), PathPlaces(v, 0, 3), {}, PathPlaces(v, 0, 3));
  }

  lemma {:induction false} RootPlace(vm: Vm, v: nat)
    ensures At(vm, PosOf(v, 0)) == Some(vm.root)
  {
  }

  // The translation a 2 MB mapping of phys gives the address w in it.
  function HugeTranslation(phys: nat, flags: Flags, w: nat): Translation {
    Mapped(phys / 4096 % FRAME_LIMIT / 512 * 512 + Index(w, 0), AsHuge(flags))
  }

  ghost predicate HugePageMapped(a: Vm, b: Vm, v: nat, phys: nat, flags: Flags) {
    forall w :: Walk(b.mem, b.root, w) ==
      if SameHugePage(v, w) then HugeTranslation(phys, flags, w) else Walk(a.mem, a.root, w)
  }

  lemma {:induction false} AlignedFrame(phys: nat, flags: Flags)
    requires phys % BLOCK_SIZE == 0
    ensures HugeEntry(phys, flags).frame % 512 == 0
  {
    assert phys / 4096 == 512 * (phys / BLOCK_SIZE);
  }

  // What a PD entry without link says about w.
  function PdTranslation(e: Entry, w: nat): Translation {
    if Present(e) then Mapped(e.frame / 512 * 512 + Index(w, 0), e.flags) else Unmapped
  }

  // Writing such an entry for a page without PT, to map it or to clear it.
  lemma {:induction false} PdWriteEffect(a: Vm, v: nat, pd: nat, e: Entry)
    requires VmInv(a) && At(a, PosOf(v, 2)) == Some(pd) && At(a, PosOf(v, 3)).None?
    requires !Links(2, e) && EntryOk(2, e)
    ensures var b := a.(mem := Store(a.mem, pd, Index(v, 1), e));
      && VmInv(b) && Grew(a, b, {}, {}) && (forall p :: At(b, p) == At(a, p))
      && forall w :: Walk(b.mem, b.root, w) == if SameHugePage(v, w) then PdTranslation(e, w) else Walk(a.mem, a.root, w)
  {
    hide Grew, Index, SameHugePage;
    PathStep(v, 1);
    PathStep(v, 2);
    LeafEffect(a, PosOf(v, 2), pd, Index(v, 1), e);
    forall w
      ensures Walk(Store(a.mem, pd, Index(v, 1), e), a.root, w) ==
        if SameHugePage(v, w) then PdTranslation(e, w) else Walk(a.mem, a.root, w)
    {
      HugeLeafWalk(a.mem, a.root, PosOf(v, 2), pd, Index(v, 1), e, w);
      SameHugePageSlots(v, w);
    }
  }

  lemma {:induction false} HugeLeafEffect(a: Vm, v: nat, pd: nat, phys: nat, flags: Flags)
    requires VmInv(a) && At(a, PosOf(v, 2)) == Some(pd) && At(a, PosOf(v, 3)).None?
    requires phys % BLOCK_SIZE == 0
    ensures var b := a.(mem := Store(a.mem, pd, Index(v, 1), HugeEntry(phys, flags)));
      VmInv(b) && Grew(a, b, {}, {}) && HugePageMapped(a, b, v, phys, flags)
  {
    hide VmInv, Grew, Index, Walk, TableAt, SameHugePage, PosOf;
    EntryBits(0, phys, flags);
    AlignedFrame(phys, flags);
    PdWriteEffect(a, v, pd, HugeEntry(phys, flags));
  }

  // vmm_map_virt_to_phys_huge_page: the same for the 2 MB page of v.
  lemma {:induction false} MapHugeCorrect(vm: Vm, v: nat, phys: nat, flags: Flags)
    requires VmInv(vm) && At(vm, PosOf(v, 3)).None? && Fits(vm, PathPlaces(v, 0, 2))
    requires phys % BLOCK_SIZE == 0
    ensures var b := MapHuge(vm, v, phys, flags);
      VmInv(b) && Grew(vm, b, PathPlaces(v, 0, 2), {}) && HugePageMapped(vm, b, v, phys, flags)
  {
    hide VmInv, Fits, Walk, TableAt;
    assert At(vm, PosOf(v, 0)) == Some(vm.root) by { RootPlace(vm, v); }
    DescendEffect(vm, vm.root, v, 3, 1);
    var (a, pd) := Descend(vm, vm.root, v, 3, 1);
    NotOnPath(v, v);
    HugeLeafEffect(a, v, pd, phys, flags);
    GrewThen(vm, a, MapHuge(vm, v, phys, flags), PathPlaces(v, 0, 2), {}, PathPlaces(v, 0, 2));
  }

  lemma {:induction false} NotOnPath(v: nat, w: nat)
    ensures PosOf(w, 3) !in PathPlaces(v, 0, 2)
  {
  }
}
