/**
 Four-level paging with 4 KB and 2 MB leaves (Intel SDM volume 3A, section 4.5): what the
 words of physical memory mean to the page walk.
 */
module Paging {
  import opened Wrappers

  const FRAME_LIMIT: nat := 0x100_0000_0000   // frame numbers have 40 bits

  type FrameNo = f: nat | f < FRAME_LIMIT

  type Bits12 = x: nat | x < 4096

  // The bits of an entry outside VMM_ADDR_MASK: 11..0 and 63..52.
  datatype Flags = Flags(low: Bits12, high: Bits12)

  // A 64-bit entry, split by VMM_ADDR_MASK: frame is bits 51..12.
  datatype Entry = Entry(frame: FrameNo, flags: Flags)

  const ZERO: Entry := Entry(0, Flags(0, 0))

  predicate Present(e: Entry) {
    e.flags.low % 2 == 1
  }

  predicate Huge(e: Entry) {
    e.flags.low / 0x80 % 2 == 1
  }

  // flags | VMM_PRESENT, and flags | VMM_PRESENT | VMM_HUGE.
  function AsLeaf(flags: Flags): Flags {
    if flags.low % 2 == 1 then flags else flags.(low := flags.low + 1)
  }

  function AsHuge(flags: Flags): Flags {
    var leaf := AsLeaf(flags);
    if leaf.low / 0x80 % 2 == 1 then leaf else leaf.(low := leaf.low + 0x80)
  }

  // table | VMM_PRESENT | VMM_WRITEABLE, for a table's frame.
  function TableEntry(frame: nat): Entry {
    Entry(frame % FRAME_LIMIT, Flags(3, 0))
  }

  // (phys & VMM_ADDR_MASK) | flags | VMM_PRESENT, and the same with VMM_HUGE.
  function LeafEntry(phys: nat, flags: Flags): Entry {
    Entry(phys / 4096 % FRAME_LIMIT, AsLeaf(flags))
  }

  function HugeEntry(phys: nat, flags: Flags): Entry {
    Entry(phys / 4096 % FRAME_LIMIT, AsHuge(flags))
  }

  lemma {:induction false} SetBit7(x: nat)
    requires x / 0x80 % 2 == 0
    ensures (x + 0x80) / 0x80 % 2 == 1 && (x + 0x80) % 2 == x % 2
  {
    assert (x + 0x80) / 0x80 == x / 0x80 + 1;
  }

  lemma {:induction false} FlagBits(flags: Flags)
    ensures AsLeaf(flags).low % 2 == 1 && AsHuge(flags).low % 2 == 1 && AsHuge(flags).low / 0x80 % 2 == 1
  {
    var x := AsLeaf(flags).low;
    if x / 0x80 % 2 == 0 {
      SetBit7(x);
    }
  }

  lemma {:induction false} EntryBits(frame: nat, phys: nat, flags: Flags)
    ensures Present(TableEntry(frame)) && !Huge(TableEntry(frame)) && !Present(ZERO)
    ensures Present(LeafEntry(phys, flags)) && Present(HugeEntry(phys, flags)) && Huge(HugeEntry(phys, flags))
  {
    hide AsLeaf, AsHuge;
    FlagBits(flags);
  }

  // ---- physical memory ----------------------------------------------------------------

  type Table = t: seq<Entry> | |t| == 512 witness ZeroTable()

  function ZeroTable(): (t: seq<Entry>)
    ensures |t| == 512 && forall i :: 0 <= i < 512 ==> t[i] == ZERO
  {
    seq(512, i => ZERO)
  }

  // Physical memory, one table-sized frame after another. Past its end reads give zero and
  // writes are lost.
  type Mem = seq<Table>

  function Lookup(mem: Mem, frame: nat, slot: nat): Entry {
    if frame < |mem| && slot < 512 then mem[frame][slot] else ZERO
  }

  function Store(mem: Mem, frame: nat, slot: nat, e: Entry): Mem {
    if frame < |mem| && slot < 512 then mem[frame := mem[frame][slot := e]] else mem
  }

  function Clear(mem: Mem, frame: nat): Mem {
    if frame < |mem| then mem[frame := ZeroTable()] else mem
  }

  // ---- the walk -------------------------------------------------------------------------

  // A place in the tree of tables: the slots that lead there from the PML4.
  datatype Pos = Root | Child(up: Pos, slot: nat)

  function Depth(p: Pos): nat {
    match p
    case Root => 0
    case Child(q, _) => Depth(q) + 1
  }

  // Entries of PML4, PDPT and PD tables (depth 0, 1, 2) that lead to another table.
  predicate Links(depth: nat, e: Entry) {
    depth < 3 && Present(e) && !(depth == 2 && Huge(e))
  }

  // The frame of the table at p, if the walk from root gets there.
  function TableAt(mem: Mem, root: nat, p: Pos): Option<nat> {
    match p
    case Root => Some(root)
    case Child(q, i) =>
      match TableAt(mem, root, q)
      case None => None
      case Some(t) =>
        var e := Lookup(mem, t, i);
        if Links(Depth(q), e) then Some(e.frame) else None
  }

  // The slot a virtual address selects at a level (3: PML4 .. 0: PT).
  function Index(v: nat, level: nat): nat
    requires level < 4
  {
    if level == 3 then v / 0x80_0000_0000 % 512
    else if level == 2 then v / 0x4000_0000 % 512
    else if level == 1 then v / 0x20_0000 % 512
    else v / 0x1000 % 512
  }

  // The table of depth d on the way to v.
  function PosOf(v: nat, d: nat): Pos
    requires d < 4
  {
    if d == 0 then Root
    else if d == 1 then Child(Root, Index(v, 3))
    else if d == 2 then Child(Child(Root, Index(v, 3)), Index(v, 2))
    else Child(Child(Child(Root, Index(v, 3)), Index(v, 2)), Index(v, 1))
  }

  datatype Translation = Unmapped | Mapped(frame: nat, flags: Flags)

  // The frame that backs the 4 KB page of v, and the flags of the leaf entry.
  function Walk(mem: Mem, root: nat, v: nat): Translation {
    match TableAt(mem, root, PosOf(v, 2))
    case None => Unmapped
    case Some(pd) =>
      var e := Lookup(mem, pd, Index(v, 1));
      if !Present(e) then Unmapped
      else if Huge(e) then Mapped(e.frame / 512 * 512 + Index(v, 0), e.flags)
      else
        var leaf := Lookup(mem, e.frame, Index(v, 0));
        if Present(leaf) then Mapped(leaf.frame, leaf.flags) else Unmapped
  }

  // ---- virtual pages --------------------------------------------------------------------

  // 47..12 and 47..21 are the address bits the walk uses.
  predicate SamePage(v: nat, w: nat) {
    v / 0x1000 % 0x10_0000_0000 == w / 0x1000 % 0x10_0000_0000
  }

  predicate SameHugePage(v: nat, w: nat) {
    v / 0x20_0000 % 0x800_0000 == w / 0x20_0000 % 0x800_0000
  }

  lemma {:induction false} ShiftSteps(v: nat)
    ensures v / 0x20_0000 == v / 0x1000 / 512
    ensures v / 0x4000_0000 == v / 0x20_0000 / 512
    ensures v / 0x80_0000_0000 == v / 0x4000_0000 / 512
  {
  }

  lemma {:induction false} SplitPage(v: nat)
    ensures v / 0x1000 % 0x10_0000_0000 == 512 * (v / 0x20_0000 % 0x800_0000) + Index(v, 0)
  {
    ShiftSteps(v);
    SplitSlot(v / 0x1000);
  }

  lemma {:induction false} SplitSlot(x: nat)
    ensures x % 0x10_0000_0000 == 512 * (x / 512 % 0x800_0000) + x % 512
  {
  }

  lemma {:induction false} SplitDigits(x: nat)
    ensures x % 0x800_0000 == 0x4_0000 * (x / 512 / 512 % 512) + 512 * (x / 512 % 512) + x % 512
  {
    assert x % 0x800_0000 == 512 * (x / 512 % 0x4_0000) + x % 512;
    assert x / 512 % 0x4_0000 == 512 * (x / 512 / 512 % 512) + x / 512 % 512;
  }

  lemma {:induction false} SplitHugePage(v: nat)
    ensures v / 0x20_0000 % 0x800_0000 == 0x4_0000 * Index(v, 3) + 512 * Index(v, 2) + Index(v, 1)
  {
    ShiftSteps(v);
    SplitDigits(v / 0x20_0000);
  }

  lemma {:induction false} Digits(a: nat, b: nat, c: nat, a': nat, b': nat, c': nat)
    requires b < 512 && c < 512 && b' < 512 && c' < 512
    ensures 0x4_0000 * a + 512 * b + c == 0x4_0000 * a' + 512 * b' + c' <==> a == a' && b == b' && c == c'
  {
  }

  lemma {:induction false} SameHugePageSlots(v: nat, w: nat)
    ensures SameHugePage(v, w) <==> PosOf(v, 2) == PosOf(w, 2) && Index(v, 1) == Index(w, 1)
  {
    SplitHugePage(v);
    SplitHugePage(w);
    Digits(Index(v, 3), Index(v, 2), Index(v, 1), Index(w, 3), Index(w, 2), Index(w, 1));
  }

  lemma {:induction false} SamePageSlots(v: nat, w: nat)
    ensures SamePage(v, w) <==> SameHugePage(v, w) && Index(v, 0) == Index(w, 0)
    ensures SamePage(v, w) <==> PosOf(v, 3) == PosOf(w, 3) && Index(v, 0) == Index(w, 0)
  {
    SplitPage(v);
    SplitPage(w);
    SameHugePageSlots(v, w);
  }
}
