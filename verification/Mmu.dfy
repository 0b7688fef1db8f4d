/**
 The processor's own walk over the 64-bit words of the tables (Intel SDM volume 3A, sections 4.5 and
 4.6), written in numbers alone: where an access ends up and what it may do there. A right holds if
 every level grants it.
 */
module Mmu {
  import opened Wrappers
  import opened Paging
  import opened PageTree
  import opened VmSpec
  import opened VmProofs
  import opened Words

  datatype Access = Fault | Access(phys: nat, writeable: bool, executable: bool)

  function Word(mem: Mem, table: nat, slot: nat): nat {
    WordValue(Lookup(mem, table, slot))
  }

  // Bytes an entry of a level stands for (3: PML4 .. 0: PT).
  function Span(level: nat): (n: nat)
    requires level < 4
    ensures n > 0
  {
    if level == 3 then 0x80_0000_0000 else if level == 2 then 0x4000_0000 else if level == 1 then 0x20_0000 else 0x1000
  }

  // Bit 0: present. Bit 1: writeable. Bit 7: a leaf, reserved in the PML4. Bits 51..12: the address.
  // Bit 63: no execution.
  function Step(mem: Mem, table: nat, v: nat, level: nat, writeable: bool, executable: bool): Access
    requires level < 4
    decreases level
  {
    var word := Word(mem, table, v / Span(level) % 512);
    var w, x := writeable && word / 2 % 2 == 1, executable && word / 0x8000_0000_0000_0000 % 2 == 0;
    if word % 2 == 0 then Fault
    else if level == 0 then Access(word % 0x10_0000_0000_0000 / 0x1000 * 0x1000 + v % 0x1000, w, x)
    else if word / 0x80 % 2 == 1 then
      if level == 3 then Fault
      else Access(word % 0x10_0000_0000_0000 / Span(level) * Span(level) + v % Span(level), w, x)
    else Step(mem, word % 0x10_0000_0000_0000 / 0x1000, v, level - 1, w, x)
  }

  function Translate(vm: Vm, v: nat): Access {
    Step(vm.mem, vm.root, v, 3, true, true)
  }

  // The fields of an entry in its word.
  lemma {:induction false} WordFields(e: Entry)
    ensures var n := WordValue(e);
      && n % 2 == e.flags.low % 2 && n / 2 % 2 == e.flags.low / 2 % 2 && n / 0x80 % 2 == e.flags.low / 0x80 % 2
      && n % 0x10_0000_0000_0000 / 0x1000 == e.frame
      && n / 0x8000_0000_0000_0000 % 2 == e.flags.high / 0x800
  {
    LowFields(e.flags.low, e.frame + 0x100_0000_0000 * e.flags.high);
    HighFields(e.flags.low, e.frame, e.flags.high);
  }

  lemma {:induction false} LowFields(low: nat, rest: nat)
    ensures var n := low + 4096 * rest;
      n % 2 == low % 2 && n / 2 % 2 == low / 2 % 2 && n / 0x80 % 2 == low / 0x80 % 2
  {
    LowBit(low, 2048 * rest);
    LowBit(low / 2, 1024 * rest);
    assert (low + 4096 * rest) / 2 == low / 2 + 2048 * rest;
    LowBit(low / 0x80, 16 * rest);
    assert (low + 4096 * rest) / 0x80 == low / 0x80 + 32 * rest;
  }

  lemma {:induction false} LowBit(x: nat, y: nat)
    ensures (x + 2 * y) % 2 == x % 2
  {
  }

  lemma {:induction false} HighFields(low: nat, frame: nat, high: nat)
    requires low < 4096 && frame < 0x100_0000_0000 && high < 4096
    ensures var n := low + 4096 * frame + 0x10_0000_0000_0000 * high;
      n % 0x10_0000_0000_0000 / 0x1000 == frame && n / 0x8000_0000_0000_0000 % 2 == high / 0x800
  {
    var n := low + 4096 * frame + 0x10_0000_0000_0000 * high;
    assert n % 0x10_0000_0000_0000 == low + 4096 * frame;
    assert n / 0x10_0000_0000_0000 == high;
    assert n / 0x8000_0000_0000_0000 == high / 0x800;
  }

  // The address a leaf gives: its frame, or its aligned block.
  lemma {:induction false} LeafAddress(e: Entry, v: nat)
    ensures WordValue(e) % 0x10_0000_0000_0000 / 0x1000 * 0x1000 + v % 0x1000 == 4096 * e.frame + v % 4096
    ensures WordValue(e) % 0x10_0000_0000_0000 / 0x20_0000 * 0x20_0000 + v % 0x20_0000
         == 4096 * (e.frame / 512 * 512 + Index(v, 0)) + v % 4096
  {
    WordFields(e);
    var n := WordValue(e) % 0x10_0000_0000_0000;
    assert n / 0x20_0000 == n / 0x1000 / 512;
    assert v % 0x20_0000 == 4096 * (v / 0x1000 % 512) + v % 4096;
  }

  // What the walk of the tables says, as an access.
  function AsAccess(t: Translation, v: nat): Access {
    match t
    case Unmapped => Fault
    case Mapped(frame, flags) => Access(4096 * frame + v % 4096, flags.low / 2 % 2 == 1, flags.high / 0x800 == 0)
  }

  // A link hands on both rights.
  lemma {:induction false} LinkStep(vm: Vm, p: Pos, v: nat, level: nat)
    requires VmInv(vm) && 0 < level < 4 && Depth(p) == 3 - level && At(vm, p).Some?
    ensures var e := Lookup(vm.mem, At(vm, p).value, Index(v, level));
      Step(vm.mem, At(vm, p).value, v, level, true, true) ==
        if Links(3 - level, e) then Step(vm.mem, e.frame, v, level - 1, true, true)
        else if !Present(e) then Fault
        else AsAccess(Mapped(e.frame / 512 * 512 + Index(v, 0), e.flags), v)
  {
    var e := Lookup(vm.mem, At(vm, p).value, Index(v, level));
    assert EntryOk(Depth(p), e);
    EntryStep(vm.mem, At(vm, p).value, v, level, e);
  }

  lemma {:induction false} EntryStep(mem: Mem, table: nat, v: nat, level: nat, e: Entry)
    requires 0 < level < 4 && EntryOk(3 - level, e) && e == Lookup(mem, table, Index(v, level))
    ensures Step(mem, table, v, level, true, true) ==
      if Links(3 - level, e) then Step(mem, e.frame, v, level - 1, true, true)
      else if !Present(e) then Fault
      else AsAccess(Mapped(e.frame / 512 * 512 + Index(v, 0), e.flags), v)
  {
    hide WordValue;
    WordFields(e);
    LeafAddress(e, v);
  }

  lemma {:induction false} PtStep(mem: Mem, pt: nat, v: nat)
    ensures var e := Lookup(mem, pt, Index(v, 0));
      Step(mem, pt, v, 0, true, true) == if Present(e) then AsAccess(Mapped(e.frame, e.flags), v) else Fault
  {
    var e := Lookup(mem, pt, Index(v, 0));
    WordFields(e);
    LeafAddress(e, v);
  }

  // In every sound state the processor gets exactly the translations the walk names, and may write and
  // execute exactly where the leaf allows it: no level above takes a right away.
  lemma {:induction false} TranslateIsWalk(vm: Vm, v: nat)
    requires VmInv(vm)
    ensures Translate(vm, v) == AsAccess(Walk(vm.mem, vm.root, v), v)
  {
    hide VmInv, Index, Step;
    WalkTables(vm.mem, vm.root, v);
    PathStep(v, 0);
    PathStep(v, 1);
    PathStep(v, 2);
    assert At(vm, PosOf(v, 0)) == Some(vm.root);
    LinkStep(vm, PosOf(v, 0), v, 3);
    if At(vm, PosOf(v, 1)).Some? {
      LinkStep(vm, PosOf(v, 1), v, 2);
      if At(vm, PosOf(v, 2)).Some? {
        LinkStep(vm, PosOf(v, 2), v, 1);
        if At(vm, PosOf(v, 3)).Some? {
          PtStep(vm.mem, At(vm, PosOf(v, 3)).value, v);
        }
      } else {
        NoLeafAbove(vm, PosOf(v, 1), v, 2);
      }
    } else {
      NoLeafAbove(vm, PosOf(v, 0), v, 3);
    }
  }

  lemma {:induction false} NoLeafAbove(vm: Vm, p: Pos, v: nat, level: nat)
    requires VmInv(vm) && 1 < level < 4 && Depth(p) == 3 - level && At(vm, p).Some?
    requires !Links(3 - level, Lookup(vm.mem, At(vm, p).value, Index(v, level)))
    ensures !Present(Lookup(vm.mem, At(vm, p).value, Index(v, level)))
  {
  }
}
