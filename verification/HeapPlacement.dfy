/** Growth of the heap takes exactly the blocks and frames that first fit names. */
module HeapPlacement {
  import opened Wrappers
  import opened Sets
  import opened PmmSpec
  import opened Paging
  import opened PageTree
  import opened VmSpec
  import opened VmProofs
  import opened HeapSpec
  import opened HeapProofs
  import opened HeapRuns
  import opened FirstFit

  function GeometryOf(pmm: Pmm): Geometry {
    Geometry(pmm.total, pmm.bytes / 64)
  }

  // How many tables each of the heap pages k .. k + n - 1 needs, when those of the places made are
  // there already.
  function TablesFor(vm: Vm, made: set<Pos>, k: nat, n: nat): (ms: seq<nat>)
    ensures |ms| == n
    decreases n
  {
    if n == 0 then []
    else
      var path := PathPlaces(HeapAddr(k), 0, 2);
      [|Missing(vm, path - made)|] + TablesFor(vm, made + path, k + 1, n - 1)
  }

  // ---- what a descent takes ------------------------------------------------------------------------

  // The lowest free frames, as many as it takes.
  lemma {:induction false} DescendFirst(vm: Vm, t: nat, v: nat, level: nat, stop: nat) returns (m: nat)
    requires stop <= level < 4
    ensures var b := Descend(vm, t, v, level, stop).0;
      && b.pmm.total == vm.pmm.total && b.pmm.bytes == vm.pmm.bytes
      && b.pmm.free == WithoutLowest(vm.pmm.free, vm.pmm.total, m) && m == |vm.pmm.free| - |b.pmm.free|
    decreases level
  {
    hide Lookup, Store, Clear, Index;
    m := 0;
    if level != stop {
      var (b, child) := NextTable(vm, t, Index(v, level));
      m := DescendFirst(b, child, v, level - 1, stop);
      var got := FirstFree(vm.pmm.free, 0, vm.pmm.total);
      if b != vm && got.Some? {
        assert vm.pmm.free == vm.pmm.free - {got.value} + {got.value};
        m := m + 1;
      }
    }
  }

  lemma {:induction false} ZeroKeepsPmm(vm: Vm, v: nat, n: nat)
    ensures ZeroPages(vm, v, n).pmm == vm.pmm
  {
    hide Walk;
    if n > 0 {
      ZeroKeepsPmm(vm, v, n - 1);
    }
  }

  // One page: its block, then the lowest frames for its tables.
  lemma {:induction false} AllocOneFirst(vm: Vm, k: nat, b: nat, flags: Flags)
    requires FirstBlock(vm.pmm.free, 0, vm.pmm.bytes / 64) == Some(b)
    requires PageAdded(vm, AllocOne(vm, HeapAddr(k), flags), k, b, flags)
    ensures AllocOne(vm, HeapAddr(k), flags).pmm.free
         == AfterPage(vm.pmm.free, GeometryOf(vm.pmm), |Missing(vm, PathPlaces(HeapAddr(k), 0, 2))|)
  {
    hide VmInv, Grew, BlockFrames, HugePageMapped, BlockOwned, Zeroed, ZeroPages, Descend, Store, PathPlaces, HeapAddr,
         WhollyFree;
    var v, vm0 := HeapAddr(k), Taking(vm, b);
    var m := DescendFirst(vm0, vm0.root, v, 3, 1);
    ZeroKeepsPmm(MapHuge(vm0, v, b * BLOCK_SIZE, flags), v, 512);
    var c := AllocOne(vm, v, flags);
    assert c.pmm.free == WithoutLowest(vm.pmm.free - BlockFrames(b), vm.pmm.total, m);
    TookOf(vm, c, PathPlaces(v, 0, 2), b);
  }

  lemma {:induction false} TookOf(vm: Vm, c: Vm, path: set<Pos>, b: nat)
    requires Grew(vm, c, path, BlockFrames(b)) && VmInv(c)
    ensures |vm.pmm.free - BlockFrames(b)| - |c.pmm.free| == |Missing(vm, path)|
  {
    GrewSize(vm, c, path, BlockFrames(b));
  }

  // ---- counts of tables ------------------------------------------------------------------------------

  // With the tables of s in place the pages need what they needed beyond s.
  lemma {:induction false} TablesAfter(a: Vm, b: Vm, s: set<Pos>, made: set<Pos>, k: nat, n: nat)
    requires forall p :: p in s ==> At(b, p).Some?
    requires forall p :: p !in s || At(a, p).Some? ==> At(b, p) == At(a, p)
    ensures TablesFor(b, made, k, n) == TablesFor(a, s + made, k, n)
    decreases n
  {
    hide PathPlaces, HeapAddr, TableAt;
    if n > 0 {
      var path := PathPlaces(HeapAddr(k), 0, 2);
      TablesAfter(a, b, s, made + path, k + 1, n - 1);
      assert Missing(b, path - made) == Missing(a, path - (s + made));
      assert s + made + path == s + (made + path);
    }
  }

  lemma {:induction false} TablesJoin(vm: Vm, made: set<Pos>, k: nat, m: nat, n: nat)
    ensures TablesFor(vm, made, k, m + n) == TablesFor(vm, made, k, m) + TablesFor(vm, made + HeapPlaces(k, m), k + m, n)
    decreases m
  {
    hide PathPlaces, HeapAddr, Missing;
    if m > 0 {
      var path := PathPlaces(HeapAddr(k), 0, 2);
      TablesJoin(vm, made + path, k + 1, m - 1, n);
      assert made + path + HeapPlaces(k + 1, m - 1) == made + HeapPlaces(k, m);
    } else {
      assert made + HeapPlaces(k, 0) == made;
    }
  }

  // Pages whose tables are there need none.
  lemma {:induction false} NoneNeeded(vm: Vm, made: set<Pos>, k: nat, n: nat)
    requires HeapPlaces(k, n) <= made
    ensures TablesFor(vm, made, k, n) == NoTables(n)
    decreases n
  {
    hide PathPlaces, HeapAddr;
    if n > 0 {
      var path := PathPlaces(HeapAddr(k), 0, 2);
      assert Missing(vm, path - made) == {};
      assert made + path == made;
      NoneNeeded(vm, made, k + 1, n - 1);
    }
  }

  // All in all a table for each missing place.
  lemma {:induction false} TablesSum(vm: Vm, made: set<Pos>, k: nat, n: nat)
    ensures Sum(TablesFor(vm, made, k, n)) == |Missing(vm, HeapPlaces(k, n) - made)|
    decreases n
  {
    hide PathPlaces, HeapAddr, TableAt;
    if n > 0 {
      var path := PathPlaces(HeapAddr(k), 0, 2);
      TablesSum(vm, made + path, k + 1, n - 1);
      var here, later := Missing(vm, path - made), Missing(vm, HeapPlaces(k + 1, n - 1) - (made + path));
      assert Missing(vm, HeapPlaces(k, n) - made) == here + later;
      assert here !! later;
    } else {
      assert Missing(vm, HeapPlaces(k, n) - made) == {};
    }
  }

  // ---- vmm_alloc_huge_page -----------------------------------------------------------------------

  // With a wholly free block for every page and every missing table, no allocation in it fails, and
  // the heap grows by n pages, on the blocks that first fit names.
  lemma {:induction false} AllocFromCorrect(vm: Vm, blocks: seq<nat>, n: nat, flags: Flags)
    requires HeapInv(vm, blocks) && Room(vm, |blocks|, n)
    ensures var c := AllocFrom(vm, HeapAddr(|blocks|), n, flags);
      var ms, g := TablesFor(vm, {}, |blocks|, n), GeometryOf(vm.pmm);
      var blocks' := blocks + Blocks(vm.pmm.free, g, ms);
      && HeapInv(c, blocks') && PagesAdded(vm, c, blocks, blocks', flags)
      && Suffice(vm.pmm.free, g, ms) && c.pmm.free == AfterPages(vm.pmm.free, g, ms)
    decreases n
  {
    hide *;
    if n == 0 {
      NothingTaken(vm, blocks, flags);
    } else {
      var k := |blocks|;
      RoomIsBlock(vm, blocks, n);
      BlockFound(vm);
      var blk := FirstBlock(vm.pmm.free, 0, vm.pmm.bytes / 64).value;
      RoomFits(vm, k, n, blk);
      AllocOneCorrect(vm, blocks, blk, flags);
      var b := AllocOne(vm, HeapAddr(k), flags);
      AllocOneFirst(vm, k, blk, flags);
      AfterOne(vm, b, blocks, blk, flags, n);
      AllocFromCorrect(b, blocks + [blk], n - 1, flags);
      OneMore(vm, b, blocks, blk, n, flags);
    }
  }

  lemma {:induction false} NothingTaken(vm: Vm, blocks: seq<nat>, flags: Flags)
    ensures var ms, g := TablesFor(vm, {}, |blocks|, 0), GeometryOf(vm.pmm);
      && AllocFrom(vm, HeapAddr(|blocks|), 0, flags) == vm && blocks + Blocks(vm.pmm.free, g, ms) == blocks
      && Suffice(vm.pmm.free, g, ms) && AfterPages(vm.pmm.free, g, ms) == vm.pmm.free
    ensures PagesAdded(vm, vm, blocks, blocks, flags)
  {
    NothingAdded(vm, blocks, flags);
  }

  // The first page and the others, put together.
  lemma {:induction false} OneMore(vm: Vm, b: Vm, blocks: seq<nat>, blk: nat, n: nat, flags: Flags)
    requires n > 0 && |blocks| < HUGE_COUNT && 512 * blk < FRAME_LIMIT
    requires FirstBlock(vm.pmm.free, 0, vm.pmm.bytes / 64) == Some(blk)
    requires b == AllocOne(vm, HeapAddr(|blocks|), flags) && PageAdded(vm, b, |blocks|, blk, flags)
    requires b.pmm.free == AfterPage(vm.pmm.free, GeometryOf(vm.pmm), |Missing(vm, PathPlaces(HeapAddr(|blocks|), 0, 2))|)
    requires var ms, g := TablesFor(b, {}, |blocks| + 1, n - 1), GeometryOf(b.pmm);
      var blocks' := blocks + [blk] + Blocks(b.pmm.free, g, ms);
      && PagesAdded(b, AllocFrom(b, HeapAddr(|blocks| + 1), n - 1, flags), blocks + [blk], blocks', flags)
      && Suffice(b.pmm.free, g, ms)
    ensures var ms, g := TablesFor(vm, {}, |blocks|, n), GeometryOf(vm.pmm);
      var ms', g' := TablesFor(b, {}, |blocks| + 1, n - 1), GeometryOf(b.pmm);
      && AllocFrom(vm, HeapAddr(|blocks|), n, flags) == AllocFrom(b, HeapAddr(|blocks| + 1), n - 1, flags)
      && blocks + Blocks(vm.pmm.free, g, ms) == blocks + [blk] + Blocks(b.pmm.free, g', ms')
      && Suffice(vm.pmm.free, g, ms) && AfterPages(vm.pmm.free, g, ms) == AfterPages(b.pmm.free, g', ms')
      && PagesAdded(vm, AllocFrom(vm, HeapAddr(|blocks|), n, flags), blocks, blocks + Blocks(vm.pmm.free, g, ms), flags)
  {
    hide VmInv, HugePageMapped, BlockOwned, Zeroed, AllocOne, PathPlaces, HeapAddr, TableAt, AfterPage, WhollyFree, PagesAdded;
    var k := |blocks|;
    NextAddr(k);
    NeedsSplit(vm, b, k, n, blk, flags);
    var ms, g := TablesFor(vm, {}, k, n), GeometryOf(vm.pmm);
    assert ms[1..] == TablesFor(b, {}, k + 1, n - 1);
    var last := Blocks(b.pmm.free, g, ms[1..]);
    assert Blocks(vm.pmm.free, g, ms) == [blk] + last;
    assert blocks + ([blk] + last) == blocks + [blk] + last;
    OneThenMore(vm, b, AllocFrom(b, HeapAddr(k + 1), n - 1, flags), blocks, blk, blocks + [blk] + last, flags);
  }

  lemma {:induction false} NextAddr(k: nat)
    ensures HeapAddr(k) + BLOCK_SIZE == HeapAddr(k + 1)
  {
  }

  // The tables the first page needs, then what the others need once those are there.
  lemma {:induction false} NeedsSplit(vm: Vm, b: Vm, k: nat, n: nat, blk: nat, flags: Flags)
    requires n > 0 && PageAdded(vm, b, k, blk, flags)
    ensures var ms, path := TablesFor(vm, {}, k, n), PathPlaces(HeapAddr(k), 0, 2);
      && ms == [|Missing(vm, path)|] + TablesFor(b, {}, k + 1, n - 1)
      && GeometryOf(b.pmm) == GeometryOf(vm.pmm)
  {
    hide VmInv, HugePageMapped, BlockOwned, Zeroed, PathPlaces, HeapAddr, TableAt, BlockFrames;
    var path := PathPlaces(HeapAddr(k), 0, 2);
    assert path - {} == path && {} + path == path + {};
    TablesAfter(vm, b, path, {}, k + 1, n - 1);
  }
}
