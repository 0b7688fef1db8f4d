/**
 When first fit leaves the API frame alone. The frame may be one of the allocator's, as it is on any
 machine with more than 256 MB; the heap must then not come as far.
 */
module Spared {
  import opened Wrappers
  import opened Sets
  import opened PmmSpec
  import opened Paging
  import opened PageTree
  import opened VmSpec
  import opened VmProofs
  import opened HeapSpec
  import opened HeapProofs
  import opened HeapRuns
  import opened FirstFit
  import opened HeapPlacement
  import opened KernelApi

  // First fit, with the heap pages k .. k + n - 1 and their tables, does not take the API frame.
  predicate Spares(vm: Vm, k: nat, n: nat) {
    API_FRAME in vm.pmm.free ==>
      API_FRAME in AfterPages(vm.pmm.free, GeometryOf(vm.pmm), TablesFor(vm, {}, k, n))
  }

  lemma {:induction false} SparesSplit(vm: Vm, k: nat, m: nat, n: nat)
    requires Spares(vm, k, m + n)
    ensures Spares(vm, k, m)
  {
    hide TablesFor, AfterPage, HeapPlaces;
    TablesJoin(vm, {}, k, m, n);
    PagesJoin(vm.pmm.free, GeometryOf(vm.pmm), TablesFor(vm, {}, k, m), TablesFor(vm, {} + HeapPlaces(k, m), k + m, n));
  }

  lemma {:induction false} SparesFewer(vm: Vm, m: nat, n: nat)
    requires Spares(vm, 0, n) && m <= n
    ensures Spares(vm, 0, m)
  {
    SparesSplit(vm, 0, m, n - m);
  }

  // The tables of these places are there, every table of a is where it was, and no other is new.
  ghost predicate TablesAdded(a: Vm, b: Vm, s: set<Pos>) {
    && (forall p :: p in s ==> At(b, p).Some?)
    && (forall p :: p !in s || At(a, p).Some? ==> At(b, p) == At(a, p))
    && GeometryOf(b.pmm) == GeometryOf(a.pmm)
  }

  // vm is start with the heap on these blocks: they and the frames taken for tables are those of
  // first fit.
  ghost predicate OnLowest(start: Vm, vm: Vm, blocks: seq<nat>) {
    var g, ms := GeometryOf(start.pmm), TablesFor(start, {}, 0, |blocks|);
    && TablesAdded(start, vm, HeapPlaces(0, |blocks|))
    && Suffice(start.pmm.free, g, ms) && blocks == Blocks(start.pmm.free, g, ms)
    && vm.pmm.free == AfterPages(start.pmm.free, g, ms)
  }

  lemma {:induction false} LowestNone(start: Vm)
    ensures OnLowest(start, start, [])
  {
  }

  // What these pages and n more take.
  lemma {:induction false} PagesMore(start: Vm, vm: Vm, k: nat, n: nat)
    requires TablesAdded(start, vm, HeapPlaces(0, k))
    ensures var g, ms, more := GeometryOf(start.pmm), TablesFor(start, {}, 0, k), TablesFor(vm, {}, k, n);
      var free, left := start.pmm.free, AfterPages(start.pmm.free, g, ms);
      && GeometryOf(vm.pmm) == g && TablesFor(start, {}, 0, k + n) == ms + more
      && AfterPages(free, g, ms + more) == AfterPages(left, g, more)
      && Blocks(free, g, ms + more) == Blocks(free, g, ms) + Blocks(left, g, more)
      && (Suffice(free, g, ms + more) <==> Suffice(free, g, ms) && Suffice(left, g, more))
  {
    hide TablesFor, AfterPages, Blocks, Suffice, HeapPlaces, TableAt;
    var s := HeapPlaces(0, k);
    TablesJoin(start, {}, 0, k, n);
    TablesAfter(start, vm, s, {}, k, n);
    assert {} + s == s + {};
    PagesJoin(start.pmm.free, GeometryOf(start.pmm), TablesFor(start, {}, 0, k), TablesFor(vm, {}, k, n));
  }

  lemma {:induction false} LowestMore(start: Vm, a: Vm, c: Vm, blocks: seq<nat>, n: nat)
    requires OnLowest(start, a, blocks) && TablesAdded(start, c, HeapPlaces(0, |blocks| + n))
    requires var ms := TablesFor(a, {}, |blocks|, n);
      Suffice(a.pmm.free, GeometryOf(a.pmm), ms) && c.pmm.free == AfterPages(a.pmm.free, GeometryOf(a.pmm), ms)
    ensures OnLowest(start, c, blocks + Blocks(a.pmm.free, GeometryOf(a.pmm), TablesFor(a, {}, |blocks|, n)))
  {
    hide TablesFor, AfterPages, Blocks, Suffice, HeapPlaces, TablesAdded;
    PagesMore(start, a, |blocks|, n);
  }

  // What spares the frame now spares it later, when some of the pages are there.
  lemma {:induction false} SparesAfter(start: Vm, vm: Vm, blocks: seq<nat>, n: nat)
    requires OnLowest(start, vm, blocks) && Spares(start, 0, |blocks| + n)
    ensures API_FRAME in start.pmm.free ==> API_FRAME in vm.pmm.free
    ensures Spares(vm, |blocks|, n)
  {
    hide TablesFor, AfterPages, Blocks, Suffice, HeapPlaces, TablesAdded;
    PagesMore(start, vm, |blocks|, n);
  }

  // After the reset: the blocks are free again, the tables stay, and the next heap takes the same
  // blocks in turn.
  lemma {:induction false} SparesAgain(start: Vm, vm: Vm, end: Vm, blocks: seq<nat>, n: nat)
    requires OnLowest(start, vm, blocks) && |blocks| <= n && Spares(start, 0, n)
    requires TablesAdded(start, end, HeapPlaces(0, |blocks|)) && end.pmm.free == vm.pmm.free + BlockUnion(blocks)
    ensures Spares(end, 0, n)
  {
    hide TablesFor, AfterPages, Blocks, Suffice, HeapPlaces, TableAt, BlockUnion;
    var k, g := |blocks|, GeometryOf(start.pmm);
    var s := HeapPlaces(0, k);
    var ms, more := TablesFor(start, {}, 0, k), TablesFor(start, s, k, n - k);
    TablesJoin(start, {}, 0, k, n - k);
    assert {} + s == s && s + {} == s && s + s == s;
    TablesAfter(start, end, s, {}, 0, n);
    TablesJoin(start, s, 0, k, n - k);
    NoneNeeded(start, s, 0, k);
    Replay(start.pmm.free, g, ms);
    PagesJoin(start.pmm.free, g, ms, more);
    PagesJoin(end.pmm.free, g, NoTables(k), more);
    if API_FRAME in end.pmm.free {
      BlocksWithin(start.pmm.free, g, ms);
    }
  }

  // Enough wholly free blocks below the API frame: neither a heap page nor a table takes it.
  lemma {:induction false} SparesFromBlocks(vm: Vm, n: nat)
    requires HeapInv(vm, []) && |WholeBlocks(vm.pmm.free, 128)| >= n + |HeapPlaces(0, n)|
    ensures Spares(vm, 0, n)
  {
    hide TablesFor, AfterPages, Blocks, Suffice, HeapPlaces, WholeBlocks, TableAt, HeapWalks;
    if API_FRAME in vm.pmm.free {
      TablesSum(vm, {}, 0, n);
      SubsetSize(Missing(vm, HeapPlaces(0, n) - {}), HeapPlaces(0, n));
      var rest := AfterPages(vm.pmm.free, GeometryOf(vm.pmm), TablesFor(vm, {}, 0, n));
      LowBlocksSpare(vm.pmm.free, GeometryOf(vm.pmm), TablesFor(vm, {}, 0, n), 128);
      assert API_FRAME !in vm.pmm.free - rest;
    }
  }
}
