/**
 The page of the kernel API. It is mapped to the physical frame of the same number, which nothing
 claims, and the kernel and the workload store to it. The allocator may own that frame, as long as it
 keeps it.
 */
module KernelApi {
  import opened Bytes
  import opened Wrappers
  import opened PmmSpec
  import opened Paging
  import opened PageTree
  import opened VmSpec
  import opened VmProofs
  import opened HeapSpec
  import opened HeapProofs
  import opened Words
  import opened VirtualMemory

  const KERNEL_API_ADDRESS: nat := 0x1000_0000
  const API_FRAME: nat := 0x1_0000
  const API_BYTES: nat := 128        // sixteen fields
  const OUTPUT_OFFSET: nat := 112    // output_buffer, then output_size

  predicate OnApiPage(v: nat) {
    SamePage(KERNEL_API_ADDRESS, v)
  }

  // The page is mapped to its frame, which is no page table.
  ghost predicate ApiOwned(vm: Vm) {
    && !IsTable(vm.mem, vm.root, API_FRAME)
    && forall w :: OnApiPage(w) ==> Walk(vm.mem, vm.root, w) == Mapped(API_FRAME, RW)
  }

  lemma {:induction false} ApiAddress(o: nat)
    requires o < 4096
    ensures OnApiPage(KERNEL_API_ADDRESS + o) && (KERNEL_API_ADDRESS + o) % 4096 == o
  {
  }

  // The API page is far off the heap.
  lemma {:induction false} ApiOffHeap(w: nat)
    requires OnApiPage(w)
    ensures HeapIndex(w) == 0x380_0080
  {
    ApiSlot(w);
    IndexFrom(HEAP_START / 0x20_0000, w / 0x20_0000);
  }

  lemma {:induction false} ApiSlot(w: nat)
    requires OnApiPage(w)
    ensures w / 0x20_0000 % HUGE_COUNT == 0x80
  {
    SplitPage(w);
    SlotIs(w / 0x20_0000 % HUGE_COUNT, Index(w, 0));
  }

  lemma {:induction false} SlotIs(q: nat, r: nat)
    requires 512 * q + r == 0x1_0000 && r < 512
    ensures q == 0x80
  {
  }

  lemma {:induction false} IndexFrom(h: nat, x: nat)
    requires h == 0x7ff_fc80_0000 && x % HUGE_COUNT == 0x80
    ensures (x - h) % HUGE_COUNT == 0x380_0080
  {
    Shifted(h, 0x380_0080, x);
  }

  // ---- effects that leave the contents of the API frame open ---------------------------------------

  function WithApi(a: Vm, t: Table): Vm {
    if API_FRAME < |a.mem| then a.(mem := a.mem[API_FRAME := t]) else a
  }

  // a with the API frame as b has it.
  function Patched(a: Vm, b: Vm): Vm {
    if API_FRAME < |b.mem| then WithApi(a, b.mem[API_FRAME]) else a
  }

  // If the API frame was free it still is.
  predicate ApiKept(a: Vm, b: Vm) {
    API_FRAME in a.pmm.free ==> API_FRAME in b.pmm.free
  }

  // As Grew, but for the contents of the API frame, which was not taken.
  ghost predicate GrewButApi(a: Vm, b: Vm, places: set<Pos>, taken: set<nat>) {
    Grew(Patched(a, b), b, places, taken) && ApiKept(a, b)
  }

  ghost predicate ApiIsData(vm: Vm) {
    !IsTable(vm.mem, vm.root, API_FRAME)
  }

  lemma {:induction false} StaysData(a: Vm, b: Vm, s: set<Pos>, x: set<nat>)
    requires ApiIsData(a) && Grew(a, b, s, x) && ApiKept(a, b)
    ensures ApiIsData(b)
  {
    forall p
      ensures TableAt(b.mem, b.root, p) != Some(API_FRAME)
    {
      assert TableAt(a.mem, a.root, p) != Some(API_FRAME);
      assert p in Missing(a, s) && At(b, p).Some? ==> At(b, p).value in Added(a, b, s);
    }
  }

  lemma {:induction false} WithApiSame(a: Vm, t: Table)
    requires ApiIsData(a)
    ensures WithApi(a, t).root == a.root && WithApi(a, t).pmm == a.pmm && |WithApi(a, t).mem| == |a.mem|
    ensures SameTables(a.mem, WithApi(a, t).mem, a.root) && SameWalks(a, WithApi(a, t)) && ApiIsData(WithApi(a, t))
    ensures forall p :: At(WithApi(a, t), p) == At(a, p)
  {
    if API_FRAME < |a.mem| {
      DataFrameWrite(a.mem, a.root, API_FRAME, t);
      SameTablesIsTable(a.mem, WithApi(a, t).mem, a.root, API_FRAME);
    }
    forall p
      ensures At(WithApi(a, t), p) == At(a, p)
    {
      assert TableAt(WithApi(a, t).mem, a.root, p) == TableAt(a.mem, a.root, p);
    }
  }

  lemma {:induction false} PatchedSame(a: Vm, b: Vm)
    requires ApiIsData(a)
    ensures Patched(a, b).root == a.root && Patched(a, b).pmm == a.pmm && |Patched(a, b).mem| == |a.mem|
    ensures SameTables(a.mem, Patched(a, b).mem, a.root) && SameWalks(a, Patched(a, b)) && ApiIsData(Patched(a, b))
    ensures forall p :: At(Patched(a, b), p) == At(a, p)
  {
    hide IsTable, Walk;
    if API_FRAME < |b.mem| {
      WithApiSame(a, b.mem[API_FRAME]);
    }
  }

  // Such an effect in terms of its two states.
  lemma {:induction false} ButApiIs(a: Vm, b: Vm, s: set<Pos>, x: set<nat>)
    requires ApiIsData(a) && GrewButApi(a, b, s, x)
    ensures b.root == a.root && |b.mem| == |a.mem| && b.pmm.total == a.pmm.total && b.pmm.bytes == a.pmm.bytes
    ensures x <= a.pmm.free && Added(a, b, s) <= a.pmm.free - x && b.pmm.free == a.pmm.free - x - Added(a, b, s)
    ensures forall p :: p in s ==> At(b, p).Some?
    ensures forall p :: p !in s || At(a, p).Some? ==> At(b, p) == At(a, p)
    ensures ApiIsData(b) && ApiKept(a, b)
  {
    hide Walk;
    var m := Patched(a, b);
    PatchedSame(a, b);
    SameMissing(a, m, b, s);
    StaysData(m, b, s, x);
  }

  lemma {:induction false} SameMissing(a: Vm, m: Vm, b: Vm, s: set<Pos>)
    requires forall p :: At(m, p) == At(a, p)
    ensures Missing(m, s) == Missing(a, s) && Added(m, b, s) == Added(a, b, s)
  {
  }

  lemma {:induction false} ButApiContents(a: Vm, b: Vm, s: set<Pos>, x: set<nat>, f: nat)
    requires ApiIsData(a) && GrewButApi(a, b, s, x)
    requires f < |a.mem| && f != API_FRAME && f !in a.pmm.free && !IsTable(a.mem, a.root, f)
    ensures f < |b.mem| && b.mem[f] == a.mem[f]
    ensures f !in b.pmm.free && !IsTable(b.mem, b.root, f)
  {
    hide Walk;
    var m := Patched(a, b);
    PatchedSame(a, b);
    SameTablesIsTable(a.mem, m.mem, a.root, f);
    StaysNoTable(m, b, s, x, f);
    assert m.mem[f] == a.mem[f];
  }

  lemma {:induction false} GrewIsButApi(a: Vm, b: Vm, s: set<Pos>, x: set<nat>)
    requires ApiIsData(a) && Grew(a, b, s, x) && ApiKept(a, b)
    ensures GrewButApi(a, b, s, x)
  {
    hide Grew, IsTable;
    SameLength(a, b, s, x);
    if API_FRAME < |a.mem| {
      WithApiGrew(a, b, s, x, b.mem[API_FRAME]);
      assert WithApi(b, b.mem[API_FRAME]) == b;
    }
  }

  lemma {:induction false} SameLength(a: Vm, b: Vm, s: set<Pos>, x: set<nat>)
    requires Grew(a, b, s, x)
    ensures |b.mem| == |a.mem|
  {
  }

  // Giving both states other contents there changes nothing.
  lemma {:induction false} WithApiGrew(a: Vm, b: Vm, s: set<Pos>, x: set<nat>, t: Table)
    requires ApiIsData(a) && Grew(a, b, s, x) && ApiKept(a, b)
    ensures Grew(WithApi(a, t), WithApi(b, t), s, x)
  {
    hide Walk;
    StaysData(a, b, s, x);
    WithApiSame(a, t);
    WithApiSame(b, t);
    var a', b' := WithApi(a, t), WithApi(b, t);
    SameMissing(a, a', b, s);
    SameAdded(a', b, b', s);
    forall f | 0 <= f < |a'.mem| && !IsTable(a'.mem, a'.root, f) && f !in a'.pmm.free
      ensures b'.mem[f] == a'.mem[f]
    {
      SameTablesIsTable(a'.mem, a.mem, a.root, f);
    }
  }

  lemma {:induction false} SameAdded(a: Vm, b: Vm, b': Vm, s: set<Pos>)
    requires forall p :: At(b', p) == At(b, p)
    ensures Added(a, b', s) == Added(a, b, s)
  {
  }

  lemma {:induction false} ButApiTrans(a: Vm, b: Vm, c: Vm, s: set<Pos>, t: set<Pos>, x: set<nat>, y: set<nat>)
    requires ApiIsData(a) && GrewButApi(a, b, s, x) && GrewButApi(b, c, t, y)
    ensures GrewButApi(a, c, s + t, x + y)
  {
    hide Grew, IsTable;
    ButApiSizes(a, b, s, x);
    ButApiIs(a, b, s, x);
    ButApiSizes(b, c, t, y);
    PatchedSame(a, b);
    if API_FRAME < |c.mem| {
      var t0 := c.mem[API_FRAME];
      WithApiGrew(Patched(a, b), b, s, x, t0);
      assert WithApi(Patched(a, b), t0) == Patched(a, c);
      assert WithApi(b, t0) == Patched(b, c);
    }
    GrewTrans(Patched(a, c), Patched(b, c), c, s, t, x, y);
  }

  lemma {:induction false} ButApiSizes(a: Vm, b: Vm, s: set<Pos>, x: set<nat>)
    requires GrewButApi(a, b, s, x)
    ensures |b.mem| == |a.mem|
  {
  }

  // The same when only tables took frames.
  lemma {:induction false} ButApiThen(a: Vm, b: Vm, c: Vm, s: set<Pos>, t: set<Pos>, st: set<Pos>)
    requires ApiIsData(a) && GrewButApi(a, b, s, {}) && GrewButApi(b, c, t, {}) && st == s + t
    ensures GrewButApi(a, c, st, {})
  {
    hide GrewButApi, ApiIsData;
    ButApiTrans(a, b, c, s, t, {}, {});
    var none: set<nat> := {};
    assert none + none == none;
  }

  // Contents of taken frames and of the API frame are open.
  lemma {:induction false} ButApiData(a: Vm, b: Vm, c: Vm, s: set<Pos>, x: set<nat>)
    requires ApiIsData(a) && GrewButApi(a, b, s, x) && SameBut(b, c, x + {API_FRAME})
    ensures GrewButApi(a, c, s, x)
  {
    hide Walk, Grew;
    ButApiSizes(a, b, s, x);
    ButApiIs(a, b, s, x);
    PatchedSame(a, b);
    if API_FRAME < |c.mem| {
      var t := c.mem[API_FRAME];
      WithApiGrew(Patched(a, b), b, s, x, t);
      assert WithApi(Patched(a, b), t) == Patched(a, c);
      WithApiSame(b, t);
      GrewData(Patched(a, c), WithApi(b, t), c, s, x);
    } else {
      GrewData(a, b, c, s, x);
    }
  }

  lemma {:induction false} ButApiSize(a: Vm, b: Vm, s: set<Pos>, x: set<nat>)
    requires ApiIsData(a) && GrewButApi(a, b, s, x) && IsTree(b.mem, b.root)
    ensures |Added(a, b, s)| == |Missing(a, s)|
    ensures |b.pmm.free| == |a.pmm.free| - |x| - |Missing(a, s)|
  {
    hide IsTree, Walk, Grew;
    PatchedSame(a, b);
    SameMissing(a, Patched(a, b), b, s);
    GrewSize(Patched(a, b), b, s, x);
  }

  lemma {:induction false} ButApiMissing(a: Vm, b: Vm, s: set<Pos>, x: set<nat>, t: set<Pos>)
    requires ApiIsData(a) && GrewButApi(a, b, s, x)
    ensures Missing(a, s + t) == Missing(a, s) + Missing(b, t) && Missing(a, s) !! Missing(b, t)
    ensures |Missing(b, t)| == |Missing(a, s + t)| - |Missing(a, s)|
  {
    hide Walk, Grew, IsTable;
    PatchedSame(a, b);
    SameMissing(a, Patched(a, b), b, s);
    SameMissing(a, Patched(a, b), b, s + t);
    GrewMissing(Patched(a, b), b, s, x, t);
  }
}
