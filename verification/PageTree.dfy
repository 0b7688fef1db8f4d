/** How single writes to physical memory change the tree of page tables and the walk. */
module PageTree {
  import opened Wrappers
  import opened Paging

  // No frame is reached along two paths, so the tables form a tree.
  ghost predicate IsTree(mem: Mem, root: nat) {
    forall p, q :: TableAt(mem, root, p).Some? && TableAt(mem, root, p) == TableAt(mem, root, q) ==> p == q
  }

  ghost predicate IsTable(mem: Mem, root: nat, frame: nat) {
    exists p :: TableAt(mem, root, p) == Some(frame)
  }

  // The tables are the same, place by place.
  ghost predicate SameTables(mem: Mem, mem': Mem, root: nat) {
    forall p :: TableAt(mem', root, p) == TableAt(mem, root, p)
  }

  // Writing a frame that is no table changes neither the tables nor any translation.
  lemma {:induction false} DataFrameTables(mem: Mem, root: nat, frame: nat, t: Table, p: Pos)
    requires frame < |mem| && !IsTable(mem, root, frame)
    ensures TableAt(mem[frame := t], root, p) == TableAt(mem, root, p)
  {
    match p
    case Root =>
    case Child(q, i) =>
      DataFrameTables(mem, root, frame, t, q);
      assert TableAt(mem, root, q) != Some(frame);
  }

  lemma {:induction false} DataFrameWrite(mem: Mem, root: nat, frame: nat, t: Table)
    requires frame < |mem| && !IsTable(mem, root, frame)
    ensures SameTables(mem, mem[frame := t], root)
    ensures forall v :: Walk(mem[frame := t], root, v) == Walk(mem, root, v)
  {
    forall p
      ensures TableAt(mem[frame := t], root, p) == TableAt(mem, root, p)
    {
      DataFrameTables(mem, root, frame, t, p);
    }
    forall v
      ensures Walk(mem[frame := t], root, v) == Walk(mem, root, v)
    {
      WalkTables(mem, root, v);
      assert TableAt(mem, root, PosOf(v, 2)) != Some(frame);
      assert TableAt(mem, root, PosOf(v, 3)) != Some(frame);
    }
  }

  // The walk in terms of the tables it passes.
  lemma {:induction false} WalkTables(mem: Mem, root: nat, v: nat)
    ensures Walk(mem, root, v) ==
      match TableAt(mem, root, PosOf(v, 3))
      case Some(pt) =>
        var leaf := Lookup(mem, pt, Index(v, 0));
        if Present(leaf) then Mapped(leaf.frame, leaf.flags) else Unmapped
      case None =>
        match TableAt(mem, root, PosOf(v, 2))
        case None => Unmapped
        case Some(pd) =>
          var e := Lookup(mem, pd, Index(v, 1));
          if Present(e) then Mapped(e.frame / 512 * 512 + Index(v, 0), e.flags) else Unmapped
  {
    assert PosOf(v, 3) == Child(PosOf(v, 2), Index(v, 1));
    assert Depth(PosOf(v, 2)) == 2;
  }

  // ---- hanging an empty table into a free slot ---------------------------------------------

  // An empty frame f, no table yet, goes into the absent slot i of the table t at pos.
  ghost predicate CanLink(mem: Mem, root: nat, pos: Pos, t: nat, i: nat, f: nat) {
    && IsTree(mem, root) && TableAt(mem, root, pos) == Some(t)
    && Depth(pos) < 3 && t < |mem| && i < 512 && !Present(mem[t][i])
    && f < |mem| && f < FRAME_LIMIT && mem[f] == ZeroTable() && !IsTable(mem, root, f)
  }

  lemma {:induction false} LinkTables(mem: Mem, root: nat, pos: Pos, t: nat, i: nat, f: nat, p: Pos)
    requires CanLink(mem, root, pos, t, i, f)
    ensures TableAt(Store(mem, t, i, TableEntry(f)), root, p) ==
      if p == Child(pos, i) then Some(f) else TableAt(mem, root, p)
  {
    var mem' := Store(mem, t, i, TableEntry(f));
    EntryBits(f, 0, ZERO.flags);
    match p
    case Root =>
    case Child(q, j) =>
      LinkTables(mem, root, pos, t, i, f, q);
      if q == Child(pos, i) {
        assert Lookup(mem', f, j) == ZERO;
        assert Lookup(mem, t, i) == mem[t][i];
      } else if TableAt(mem, root, q).Some? {
        assert TableAt(mem, root, q) != Some(f);
        assert TableAt(mem, root, q) == Some(t) ==> q == pos;
      }
  }

  lemma {:induction false} LinkWalk(mem: Mem, root: nat, pos: Pos, t: nat, i: nat, f: nat, v: nat)
    requires CanLink(mem, root, pos, t, i, f)
    ensures Walk(Store(mem, t, i, TableEntry(f)), root, v) == Walk(mem, root, v)
  {
    var mem' := Store(mem, t, i, TableEntry(f));
    WalkTables(mem, root, v);
    WalkTables(mem', root, v);
    LinkTables(mem, root, pos, t, i, f, PosOf(v, 2));
    LinkTables(mem, root, pos, t, i, f, PosOf(v, 3));
    LinkTables(mem, root, pos, t, i, f, pos);
    assert PosOf(v, 3) == Child(PosOf(v, 2), Index(v, 1));
    assert TableAt(mem, root, PosOf(v, 3)) != Some(t);
    assert TableAt(mem, root, PosOf(v, 2)) == Some(t) ==> pos == PosOf(v, 2);
  }

  // ---- writing a leaf ------------------------------------------------------------------------

  // Slot i of the table t at pos holds no link and gets none.
  ghost predicate CanWriteLeaf(mem: Mem, root: nat, pos: Pos, t: nat, i: nat, e: Entry) {
    && IsTree(mem, root) && TableAt(mem, root, pos) == Some(t)
    && t < |mem| && i < 512
    && !Links(Depth(pos), mem[t][i]) && !Links(Depth(pos), e)
  }

  lemma {:induction false} LeafTables(mem: Mem, root: nat, pos: Pos, t: nat, i: nat, e: Entry, p: Pos)
    requires CanWriteLeaf(mem, root, pos, t, i, e)
    ensures TableAt(Store(mem, t, i, e), root, p) == TableAt(mem, root, p)
  {
    match p
    case Root =>
    case Child(q, j) =>
      LeafTables(mem, root, pos, t, i, e, q);
      if TableAt(mem, root, q) == Some(t) {
        assert q == pos;
      }
  }

  // A PT leaf decides the translation of one 4 KB page.
  lemma {:induction false} PageLeafWalk(mem: Mem, root: nat, pos: Pos, t: nat, i: nat, e: Entry, v: nat)
    requires CanWriteLeaf(mem, root, pos, t, i, e) && Depth(pos) == 3
    ensures Walk(Store(mem, t, i, e), root, v) ==
      if PosOf(v, 3) == pos && Index(v, 0) == i then
        if Present(e) then Mapped(e.frame, e.flags) else Unmapped
      else Walk(mem, root, v)
  {
    var mem' := Store(mem, t, i, e);
    WalkTables(mem, root, v);
    WalkTables(mem', root, v);
    LeafTables(mem, root, pos, t, i, e, PosOf(v, 2));
    LeafTables(mem, root, pos, t, i, e, PosOf(v, 3));
    assert TableAt(mem, root, PosOf(v, 3)) == Some(t) ==> pos == PosOf(v, 3);
    assert TableAt(mem, root, PosOf(v, 2)) != Some(t);
  }

  // A PD entry that is a 2 MB leaf or absent decides the translation of one 2 MB page.
  lemma {:induction false} HugeLeafWalk(mem: Mem, root: nat, pos: Pos, t: nat, i: nat, e: Entry, v: nat)
    requires CanWriteLeaf(mem, root, pos, t, i, e) && Depth(pos) == 2
    ensures Walk(Store(mem, t, i, e), root, v) ==
      if PosOf(v, 2) == pos && Index(v, 1) == i then
        if Present(e) then Mapped(e.frame / 512 * 512 + Index(v, 0), e.flags) else Unmapped
      else Walk(mem, root, v)
  {
    var mem' := Store(mem, t, i, e);
    WalkTables(mem, root, v);
    WalkTables(mem', root, v);
    LeafTables(mem, root, pos, t, i, e, PosOf(v, 2));
    LeafTables(mem, root, pos, t, i, e, PosOf(v, 3));
    assert PosOf(v, 3) == Child(PosOf(v, 2), Index(v, 1));
    assert TableAt(mem, root, PosOf(v, 2)) == Some(t) ==> pos == PosOf(v, 2);
    assert TableAt(mem, root, PosOf(v, 3)) != Some(t);
  }
}
