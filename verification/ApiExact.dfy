/** Exactly when the stores to the API page are harmless. */
module ApiExact {
  import opened Bytes
  import opened Wrappers
  import opened Sets
  import opened PmmSpec
  import opened MemoryMap
  import opened Paging
  import opened PageTree
  import opened VmSpec
  import opened VmProofs
  import opened VmRange
  import opened VmInit
  import opened HeapSpec
  import opened HeapProofs
  import opened Words
  import opened VirtualMemory
  import opened KernelApi
  import opened HeapCycles
  import opened Boot
  import opened BootFrames

  // ---- one store ---------------------------------------------------------------------------------

  ghost predicate KeepsAddressSpace(a: Vm, b: Vm) {
    SameTables(a.mem, b.mem, a.root) && SameWalks(a, b)
  }

  // The API page is mapped, to a frame that exists.
  ghost predicate ApiMapped(vm: Vm) {
    API_FRAME < |vm.mem| && forall w :: OnApiPage(w) ==> Walk(vm.mem, vm.root, w) == Mapped(API_FRAME, RW)
  }

  // An address below the table with these slots.
  function Address(a: nat, b: nat, c: nat): nat {
    a * 0x80_0000_0000 + b * 0x4000_0000 + c * 0x20_0000
  }

  lemma {:induction false} AddressSlots(a: nat, b: nat, c: nat)
    requires a < 512 && b < 512 && c < 512
    ensures var v := Address(a, b, c);
      Index(v, 3) == a && Index(v, 2) == b && Index(v, 1) == c && Index(v, 0) == 0
  {
    var v, x := Address(a, b, c), a * 0x4_0000 + b * 512 + c;
    assert v == 0x20_0000 * x;
    WholeBlock(x);
    ThreeDigits(a, b, c);
    ShiftSteps(v);
  }

  lemma {:induction false} WholeBlock(x: nat)
    ensures 0x20_0000 * x / 0x20_0000 == x && 0x20_0000 * x / 0x1000 % 512 == 0
  {
    assert 0x20_0000 * x / 0x1000 == 512 * x;
  }

  lemma {:induction false} ThreeDigits(a: nat, b: nat, c: nat)
    requires a < 512 && b < 512 && c < 512
    ensures (a * 0x4_0000 + b * 512 + c) % 512 == c && (a * 0x4_0000 + b * 512 + c) / 512 == a * 512 + b
    ensures (a * 512 + b) % 512 == b && (a * 512 + b) / 512 == a && a % 512 == a
  {
  }

  lemma {:induction false} SlotsOf(mem: Mem, root: nat, p: Pos)
    requires TableAt(mem, root, p).Some? && p.Child?
    ensures TableAt(mem, root, p.up).Some? && p.slot < 512 && Depth(p.up) < 3
  {
    EntryBits(0, 0, ZERO.flags);
  }

  // An address whose way through the tables passes slot 0 of the table at p, of depth 2 or 3.
  lemma {:induction false} AddressOf(mem: Mem, root: nat, p: Pos) returns (v: nat)
    requires TableAt(mem, root, p).Some? && (Depth(p) == 2 || Depth(p) == 3)
    ensures Depth(p) == 2 ==> PosOf(v, 2) == p && Index(v, 1) == 0
    ensures Depth(p) == 3 ==> PosOf(v, 3) == p && Index(v, 0) == 0
  {
    hide TableAt, Index;
    SlotsOf(mem, root, p);
    SlotsOf(mem, root, p.up);
    if Depth(p) == 2 {
      AddressSlots(p.up.slot, p.slot, 0);
      v := Address(p.up.slot, p.slot, 0);
    } else {
      SlotsOf(mem, root, p.up.up);
      AddressSlots(p.up.up.slot, p.up.slot, p.slot);
      v := Address(p.up.up.slot, p.up.slot, p.slot);
    }
  }

  lemma {:induction false} DepthBelow(mem: Mem, root: nat, p: Pos)
    requires TableAt(mem, root, p).Some?
    ensures Depth(p) <= 3
  {
  }

  // The byte that turns the present bit of slot 0 over.
  function Toggle(e: Entry): byte {
    if Present(e) then 0 else 1
  }

  // With a page table on the API frame, turning over the present bit of its slot 0 changes the tables
  // or a translation.
  lemma {:induction false} ToggleBreaks(mem: Mem, root: nat, p: Pos)
    requires API_FRAME < |mem| && TableAt(mem, root, p) == Some(API_FRAME)
    ensures var mem' := PutByte(mem, API_FRAME, 0, Toggle(mem[API_FRAME][0]));
      !SameTables(mem, mem', root) || exists w :: Walk(mem', root, w) != Walk(mem, root, w)
  {
    hide SetByte, Index;
    var e := mem[API_FRAME][0];
    var mem' := PutByte(mem, API_FRAME, 0, Toggle(e));
    var e' := SetByte(e, 0, Toggle(e));
    LowestBit(e, Toggle(e));
    assert mem'[API_FRAME][0] == e';
    DepthBelow(mem, root, p);
    if SameTables(mem, mem', root) {
      assert TableAt(mem', root, p) == Some(API_FRAME);
      assert TableAt(mem', root, Child(p, 0)) == TableAt(mem, root, Child(p, 0));
      if Depth(p) == 2 || Depth(p) == 3 {
        var v := AddressOf(mem, root, p);
        WalkTables(mem, root, v);
        WalkTables(mem', root, v);
        assert PosOf(v, 3) == Child(PosOf(v, 2), Index(v, 1));
        assert TableAt(mem', root, PosOf(v, 3)) == TableAt(mem, root, PosOf(v, 3));
        assert Walk(mem', root, v) != Walk(mem, root, v);
      }
    }
  }

  // An address in the API struct.
  predicate InStruct(v: nat) {
    KERNEL_API_ADDRESS <= v < KERNEL_API_ADDRESS + API_BYTES
  }

  lemma {:induction false} StructAddress(vm: Vm, v: nat)
    requires ApiMapped(vm) && InStruct(v)
    ensures Walk(vm.mem, vm.root, v) == Mapped(API_FRAME, RW) && v % 4096 == v - KERNEL_API_ADDRESS
  {
    ApiAddress(v - KERNEL_API_ADDRESS);
  }

  // A store through the API page keeps tables and translations, whatever field and byte, if and
  // only if no page table lies on the page's frame.
  lemma {:induction false} ApiStoreExact(vm: Vm)
    requires ApiMapped(vm)
    ensures (forall v: nat, b: byte :: InStruct(v) ==> KeepsAddressSpace(vm, StoreByte(vm, v, b)))
      <==> !IsTable(vm.mem, vm.root, API_FRAME)
  {
    hide ApiMapped, Walk, TableAt, PutByte, InStruct;
    if !IsTable(vm.mem, vm.root, API_FRAME) {
      forall v: nat, b: byte | InStruct(v)
        ensures KeepsAddressSpace(vm, StoreByte(vm, v, b))
      {
        StructAddress(vm, v);
        StoreEffect(vm, v, b, API_FRAME);
      }
    } else {
      var p :| TableAt(vm.mem, vm.root, p) == Some(API_FRAME);
      ToggleStored(vm, p);
    }
  }

  lemma {:induction false} ToggleStored(vm: Vm, p: Pos)
    requires ApiMapped(vm) && TableAt(vm.mem, vm.root, p) == Some(API_FRAME)
    ensures InStruct(KERNEL_API_ADDRESS)
    ensures !KeepsAddressSpace(vm, StoreByte(vm, KERNEL_API_ADDRESS, Toggle(vm.mem[API_FRAME][0])))
  {
    hide Walk, TableAt, PutByte;
    StructAddress(vm, KERNEL_API_ADDRESS);
    ToggleBreaks(vm.mem, vm.root, p);
  }

  // It keeps the contents of given frames, such as those the bitmap lies on, if and only if the API
  // frame is none of them.
  lemma {:induction false} ApiStoreKeepsFrames(vm: Vm, frames: set<nat>)
    requires ApiMapped(vm)
    ensures (forall v: nat, b: byte :: InStruct(v) ==> SameFrames(vm.mem, StoreByte(vm, v, b).mem, frames)) <==> API_FRAME !in frames
  {
    hide ApiMapped, Walk, PutByte;
    if API_FRAME in frames {
      OtherByte(vm, frames);
    } else {
      forall v: nat, b: byte | InStruct(v)
        ensures SameFrames(vm.mem, StoreByte(vm, v, b).mem, frames)
      {
        StructAddress(vm, v);
        PutShape(vm.mem, API_FRAME, v % 4096, b);
      }
    }
  }

  ghost predicate SameFrames(a: Mem, b: Mem, frames: set<nat>) {
    |b| == |a| && forall f :: f in frames && f < |a| ==> b[f] == a[f]
  }

  lemma {:induction false} OtherByte(vm: Vm, frames: set<nat>)
    requires ApiMapped(vm) && API_FRAME in frames
    ensures var b: byte := if ByteAt(vm.mem, API_FRAME, 0) == 0 then 1 else 0;
      InStruct(KERNEL_API_ADDRESS) && !SameFrames(vm.mem, StoreByte(vm, KERNEL_API_ADDRESS, b).mem, frames)
  {
    hide Walk, PutByte;
    var b: byte := if ByteAt(vm.mem, API_FRAME, 0) == 0 then 1 else 0;
    StructAddress(vm, KERNEL_API_ADDRESS);
    PutThenGet(vm.mem, API_FRAME, 0, b, API_FRAME, 0);
  }

  // The stores of the API struct leave the address space of boot alone, whatever they store, if and
  // only if the API frame is not the allocator's, or has more of its free frames below it than the
  // tables of boot.
  lemma {:induction false} BootStoresExact(mem: Mem, pmm: Pmm, h: Handover)
    requires CanInit(mem, pmm, h) && PmmOk(pmm) && OffHeap(pmm, h) && API_FRAME < |mem|
    ensures var vm := MappedVm(mem, pmm, h);
      (forall v: nat, b: byte :: InStruct(v) ==> KeepsAddressSpace(vm, StoreByte(vm, v, b)))
      <==> ApiSpared(pmm, h)
  {
    hide *;
    MappedIsApi(mem, pmm, h);
    ApiStoreExact(MappedVm(mem, pmm, h));
    ApiSparedExact(mem, pmm, h);
  }

  lemma {:induction false} MappedIsApi(mem: Mem, pmm: Pmm, h: Handover)
    requires CanInit(mem, pmm, h) && PmmOk(pmm) && OffHeap(pmm, h) && API_FRAME < |mem|
    ensures ApiMapped(MappedVm(mem, pmm, h))
  {
    hide Walk, MappedVm, HeapInvFrom, Booting, Grew, PrepPml4, BootPlaces, InitTranslation, OffHeap, EntriesCost,
         TableBound;
    MappedCorrect(mem, pmm, h);
    var vm := MappedVm(mem, pmm, h);
    forall w | OnApiPage(w)
      ensures Walk(vm.mem, vm.root, w) == Mapped(API_FRAME, RW)
    {
      assert PagesAfter(KERNEL_API_ADDRESS, w) == 0;
    }
  }
}
