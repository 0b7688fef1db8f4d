/** Bytes loaded and stored at virtual addresses, through the current tables. */
module VirtualMemory {
  import opened Bytes
  import opened Wrappers
  import opened Paging
  import opened PageTree
  import opened VmSpec
  import opened VmProofs
  import opened Words

  function LoadByte(vm: Vm, v: nat): Option<byte> {
    match Walk(vm.mem, vm.root, v)
    case Unmapped => None
    case Mapped(frame, _) => Some(ByteAt(vm.mem, frame, v % 4096))
  }

  // A store to an unmapped address would fault: that is not modelled, nothing is stored.
  function StoreByte(vm: Vm, v: nat, b: byte): Vm {
    match Walk(vm.mem, vm.root, v)
    case Unmapped => vm
    case Mapped(frame, _) => vm.(mem := PutByte(vm.mem, frame, v % 4096, b))
  }

  // The two states agree but for the contents of the frames of the set, none of them a table.
  ghost predicate SameBut(a: Vm, b: Vm, frames: set<nat>) {
    && b.root == a.root && b.pmm == a.pmm && |b.mem| == |a.mem|
    && SameTables(a.mem, b.mem, a.root) && SameWalks(a, b)
    && forall f :: 0 <= f < |a.mem| && f !in frames ==> b.mem[f] == a.mem[f]
  }

  lemma {:induction false} SameButTrans(a: Vm, b: Vm, c: Vm, frames: set<nat>)
    requires SameBut(a, b, frames) && SameBut(b, c, frames)
    ensures SameBut(a, c, frames)
  {
  }

  // A store to a page on a frame that is no table.
  lemma {:induction false} StoreEffect(vm: Vm, v: nat, b: byte, frame: nat)
    requires Walk(vm.mem, vm.root, v).Mapped? && Walk(vm.mem, vm.root, v).frame == frame
    requires !IsTable(vm.mem, vm.root, frame)
    ensures SameBut(vm, StoreByte(vm, v, b), {frame})
  {
    hide IsTable, SetByte;
    if frame < |vm.mem| {
      var slot := v % 4096 / 8;
      DataFrameWrite(vm.mem, vm.root, frame, vm.mem[frame][slot := SetByte(vm.mem[frame][slot], v % 4096 % 8, b)]);
    }
  }

  // What is loaded after such a store: the byte that was stored, and elsewhere what was there.
  lemma {:induction false} StoreThenLoad(vm: Vm, v: nat, b: byte, w: nat)
    requires Walk(vm.mem, vm.root, v).Mapped? && !IsTable(vm.mem, vm.root, Walk(vm.mem, vm.root, v).frame)
    requires Walk(vm.mem, vm.root, v).frame < |vm.mem|
    ensures LoadByte(StoreByte(vm, v, b), w) ==
      if Walk(vm.mem, vm.root, w).Mapped? && Walk(vm.mem, vm.root, w).frame == Walk(vm.mem, vm.root, v).frame && w % 4096 == v % 4096
      then Some(b) else LoadByte(vm, w)
  {
    hide IsTable, PutByte, ByteAt, Walk;
    var frame := Walk(vm.mem, vm.root, v).frame;
    StoreEffect(vm, v, b, frame);
    var at := Walk(vm.mem, vm.root, w);
    if at.Mapped? {
      PutThenGet(vm.mem, frame, v % 4096, b, at.frame, w % 4096);
    }
  }
}
