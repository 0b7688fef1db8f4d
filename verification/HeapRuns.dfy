/** Whole allocations, workload cycles and runs of cycles. */
module HeapRuns {
  import opened Wrappers
  import opened Sets
  import opened PmmSpec
  import opened Paging
  import opened PageTree
  import opened VmSpec
  import opened VmProofs
  import opened HeapSpec
  import opened HeapProofs

  // ---- capacity in wholly free blocks ----------------------------------------------------------

  // The wholly free blocks below limit.
  function WholeBlocks(free: set<nat>, limit: nat): (s: set<nat>)
    ensures forall b :: b in s <==> 0 <= b < limit && WhollyFree(free, b)
  {
    set b: nat | b < limit && WhollyFree(free, b)
  }

  function Whole(vm: Vm): set<nat> {
    WholeBlocks(vm.pmm.free, vm.pmm.bytes / 64)
  }

  // Taking one frame spoils at most the block it lies in.
  lemma {:induction false} OneFrameLess(free: set<nat>, limit: nat, f: nat)
    ensures WholeBlocks(free, limit) - {f / 512} <= WholeBlocks(free - {f}, limit)
  {
    forall b | b in WholeBlocks(free, limit) && b != f / 512
      ensures WhollyFree(free - {f}, b)
    {
      BlockBounds(b);
    }
  }

  lemma {:induction false} FramesLess(free: set<nat>, limit: nat, x: set<nat>)
    ensures |WholeBlocks(free - x, limit)| >= |WholeBlocks(free, limit)| - |x|
    decreases x
  {
    if x == {} {
      assert free - x == free;
    } else {
      hide WholeBlocks;
      var f :| f in x;
      FramesLess(free, limit, x - {f});
      OneFrameLess(free - (x - {f}), limit, f);
      assert free - (x - {f}) - {f} == free - x;
      var a, b := WholeBlocks(free - (x - {f}), limit), WholeBlocks(free - x, limit);
      SubsetSize(a - {f / 512}, b);
    }
  }

  lemma {:induction false} OneBlockLess(free: set<nat>, limit: nat, b: nat)
    ensures WholeBlocks(free, limit) - {b} <= WholeBlocks(free - BlockFrames(b), limit)
  {
    forall c | c in WholeBlocks(free, limit) && c != b
      ensures WhollyFree(free - BlockFrames(b), c)
    {
      BlockBounds(b);
      BlockBounds(c);
    }
  }

  function FirstOf(b: nat): nat {
    512 * b
  }

  function Firsts(s: set<nat>): set<nat> {
    set b | b in s :: FirstOf(b)
  }

  lemma {:induction false} FirstsSize(s: set<nat>)
    ensures |Firsts(s)| == |s|
    decreases s
  {
    if s == {} {
      assert Firsts(s) == {};
    } else {
      var b :| b in s;
      FirstsSize(s - {b});
      FirstsMore(s - {b}, b);
      assert s - {b} + {b} == s;
    }
  }

  lemma {:induction false} FirstsMore(s: set<nat>, b: nat)
    ensures Firsts(s + {b}) == Firsts(s) + {FirstOf(b)} && (b !in s ==> FirstOf(b) !in Firsts(s))
  {
  }

  // A wholly free block is at least one free frame.
  lemma {:induction false} BlocksAreFrames(free: set<nat>, limit: nat)
    ensures |WholeBlocks(free, limit)| <= |free|
  {
    var s := WholeBlocks(free, limit);
    FirstsSize(s);
    forall b | b in s
      ensures FirstOf(b) in free
    {
      assert 512 * b in BlockFrames(b);
    }
    SubsetSize(Firsts(s), free);
  }

  // ---- room for n more heap pages ----------------------------------------------------------------

  // The PDPT and PD places of the heap pages k .. k + n - 1.
  function HeapPlaces(k: nat, n: nat): set<Pos>
    decreases n
  {
    if n == 0 then {} else PathPlaces(HeapAddr(k), 0, 2) + HeapPlaces(k + 1, n - 1)
  }

  // A wholly free block for each page and one for each missing table.
  ghost predicate Room(vm: Vm, k: nat, n: nat) {
    |Whole(vm)| >= n + |Missing(vm, HeapPlaces(k, n))|
  }

  // Heap blocks and wholly free blocks are different blocks of memory.
  lemma {:induction false} HeapBelowCap(vm: Vm, blocks: seq<nat>)
    requires HeapInv(vm, blocks)
    ensures |blocks| + |Whole(vm)| <= Cap(vm)
  {
    var used := Used(blocks);
    UsedSize(blocks);
    forall b | b in used
      ensures b < Cap(vm) && b !in Whole(vm)
    {
      var k :| 0 <= k < |blocks| && b == blocks[k];
      assert BlockOwned(vm, blocks[k]);
      assert 512 * b in BlockFrames(b);
    }
    forall b | b in Whole(vm)
      ensures b < Cap(vm)
    {
      assert 512 * b + 511 in BlockFrames(b);
    }
    RunSize(0, Cap(vm));
    SubsetSize(used + Whole(vm), Run(0, Cap(vm)));
  }

  function Used(blocks: seq<nat>): set<nat> {
    set k | 0 <= k < |blocks| :: blocks[k]
  }

  lemma {:induction false} UsedSize(blocks: seq<nat>)
    requires forall i, j :: 0 <= i < j < |blocks| ==> blocks[i] != blocks[j]
    ensures |Used(blocks)| == |blocks|
  {
    if blocks == [] {
      assert Used(blocks) == {};
    } else {
      var front, last := blocks[..|blocks| - 1], blocks[|blocks| - 1];
      UsedSize(front);
      assert forall k :: 0 <= k < |front| ==> front[k] == blocks[k];
      assert Used(blocks) == Used(front) + {last};
    }
  }

  // The lowest wholly free block, found when there is one.
  lemma {:induction false} BlockFound(vm: Vm)
    requires Whole(vm) != {}
    ensures FirstBlock(vm.pmm.free, 0, vm.pmm.bytes / 64).Some?
    ensures WhollyFree(vm.pmm.free, FirstBlock(vm.pmm.free, 0, vm.pmm.bytes / 64).value)
  {
  }

  lemma {:induction false} RoomFits(vm: Vm, k: nat, n: nat, b: nat)
    requires Room(vm, k, n) && n > 0
    ensures Fits(Taking(vm, b), PathPlaces(HeapAddr(k), 0, 2))
  {
    hide BlockFrames, WholeBlocks, PathPlaces, HeapAddr;
    var here, rest := PathPlaces(HeapAddr(k), 0, 2), HeapPlaces(k + 1, n - 1);
    assert forall p :: At(Taking(vm, b), p) == At(vm, p);
    assert Missing(Taking(vm, b), here) == Missing(vm, here);
    SubsetSize(Missing(vm, here), Missing(vm, here + rest));
    var limit := vm.pmm.bytes / 64;
    OneBlockLess(vm.pmm.free, limit, b);
    SubsetSize(WholeBlocks(vm.pmm.free, limit) - {b}, WholeBlocks(vm.pmm.free - BlockFrames(b), limit));
    BlocksAreFrames(vm.pmm.free - BlockFrames(b), limit);
  }

  lemma {:induction false} RoomLeft(a: Vm, c: Vm, k: nat, n: nat, b: nat)
    requires Room(a, k, n) && n > 0 && VmInv(c)
    requires Grew(a, c, PathPlaces(HeapAddr(k), 0, 2), BlockFrames(b))
    ensures Room(c, k + 1, n - 1)
  {
    hide BlockFrames, WholeBlocks, PathPlaces, HeapAddr;
    var here, rest := PathPlaces(HeapAddr(k), 0, 2), HeapPlaces(k + 1, n - 1);
    var limit := a.pmm.bytes / 64;
    GrewMissing(a, c, here, BlockFrames(b), rest);
    GrewSize(a, c, here, BlockFrames(b));
    OneBlockLess(a.pmm.free, limit, b);
    SubsetSize(WholeBlocks(a.pmm.free, limit) - {b}, WholeBlocks(a.pmm.free - BlockFrames(b), limit));
    FramesLess(a.pmm.free - BlockFrames(b), limit, Added(a, c, here));
  }

  // ---- vmm_alloc_huge_page -----------------------------------------------------------------------

  // From a to c heap pages were added with the flags, each on a fresh zeroed block.
  ghost predicate PagesAdded(a: Vm, c: Vm, blocks: seq<nat>, blocks': seq<nat>, flags: Flags) {
    && blocks <= blocks'
    && Grew(a, c, HeapPlaces(|blocks|, |blocks'| - |blocks|), BlockUnion(blocks'[|blocks|..]))
    && Zeroed(c.mem, BlockUnion(blocks'[|blocks|..]))
    && (forall w :: |blocks| <= HeapIndex(w) < |blocks'| ==>
          Walk(c.mem, c.root, w) == Mapped(512 * blocks'[HeapIndex(w)] + Index(w, 0), AsHuge(flags)))
    && (forall w :: !(|blocks| <= HeapIndex(w) < |blocks'|) ==> Walk(c.mem, c.root, w) == Walk(a.mem, a.root, w))
  }

  lemma {:induction false} NothingAdded(a: Vm, blocks: seq<nat>, flags: Flags)
    ensures PagesAdded(a, a, blocks, blocks, flags)
  {
    GrewRefl(a);
    assert blocks[|blocks|..] == [];
    assert BlockUnion([]) == {};
  }

  lemma {:induction false} ZeroedKept(b: Vm, c: Vm, s: set<Pos>, x: set<nat>, blk: nat, more: set<nat>)
    requires VmInv(b) && BlockOwned(b, blk) && Grew(b, c, s, x) && Zeroed(b.mem, BlockFrames(blk)) && Zeroed(c.mem, more)
    ensures Zeroed(c.mem, BlockFrames(blk) + more)
  {
    hide BlockFrames;
    forall f | f in BlockFrames(blk)
      ensures f < |c.mem| && c.mem[f] == ZeroTable()
    {
      assert !IsTable(b.mem, b.root, f);
    }
  }

  lemma {:induction false} OneThenMore(a: Vm, b: Vm, c: Vm, blocks: seq<nat>, blk: nat, blocks': seq<nat>, flags: Flags)
    requires |blocks| < HUGE_COUNT && 512 * blk < FRAME_LIMIT
    requires PageAdded(a, b, |blocks|, blk, flags) && PagesAdded(b, c, blocks + [blk], blocks', flags)
    ensures PagesAdded(a, c, blocks, blocks', flags)
  {
    hide Walk, HeapAddr, SameHugePage, PathPlaces, BlockFrames, BlockUnion, VmInv, BlockOwned, Zeroed, Grew, HeapIndex;
    var k := |blocks|;
    assert blocks'[k] == (blocks + [blk])[k] == blk;
    UnionFirst(blocks', k);
    GrewTrans(a, b, c, PathPlaces(HeapAddr(k), 0, 2), HeapPlaces(k + 1, |blocks'| - k - 1),
              BlockFrames(blk), BlockUnion(blocks'[k + 1..]));
    ZeroedKept(b, c, HeapPlaces(k + 1, |blocks'| - k - 1), BlockUnion(blocks'[k + 1..]), blk, BlockUnion(blocks'[k + 1..]));
    forall w
      ensures k <= HeapIndex(w) < |blocks'| ==>
        Walk(c.mem, c.root, w) == Mapped(512 * blocks'[HeapIndex(w)] + Index(w, 0), AsHuge(flags))
      ensures !(k <= HeapIndex(w) < |blocks'|) ==> Walk(c.mem, c.root, w) == Walk(a.mem, a.root, w)
    {
      HeapPageOf(k, w);
      BlockFrame(blk, flags, w);
    }
  }

  lemma {:induction false} RoomIsBlock(vm: Vm, blocks: seq<nat>, n: nat)
    requires HeapInv(vm, blocks) && Room(vm, |blocks|, n) && n > 0
    ensures Whole(vm) != {} && |blocks| < Cap(vm) <= HUGE_COUNT
  {
    HeapBelowCap(vm, blocks);
    CapSmall(vm);
  }

  lemma {:induction false} AfterOne(a: Vm, b: Vm, blocks: seq<nat>, blk: nat, flags: Flags, n: nat)
    requires Room(a, |blocks|, n) && n > 0 && PageAdded(a, b, |blocks|, blk, flags)
    ensures Room(b, |blocks| + 1, n - 1) && 512 * blk < FRAME_LIMIT
  {
    RoomLeft(a, b, |blocks|, n, blk);
    BlockBelow(b, blk);
  }

  lemma {:induction false} AlignedNext(k: nat)
    ensures AlignUp(HeapAddr(k)) == HeapAddr(k)
  {
    assert HeapAddr(k) / BLOCK_SIZE * BLOCK_SIZE == HeapAddr(k);
  }
}
