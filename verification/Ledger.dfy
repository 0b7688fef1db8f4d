/**
 Runs of the allocator in which frees match allocations: who owns each frame, and what
 the free-frame counter then counts.
 */
module Ledger {
  import opened Wrappers
  import opened Sets
  import opened PmmSpec

  // The allocator with its live allocations: single frames (a contiguous claim is n of
  // them, there is no other way to give it back) and 2 MB blocks.
  datatype Ledger = Ledger(pmm: Pmm, frames: set<nat>, blocks: set<nat>)

  datatype Op = Alloc | Free(frame: nat) | Contiguous(n: nat) | Alloc2mb | Free2mb(block: nat)

  // Frees match allocations.
  predicate Matches(l: Ledger, op: Op) {
    match op
    case Free(f) => f in l.frames
    case Free2mb(b) => b in l.blocks
    case _ => true
  }

  // Where something was handed out, it is what the returned address says.
  function Apply(l: Ledger, op: Op): Ledger {
    match op
    case Alloc =>
      var (pmm, addr) := AllocNext(l.pmm);
      Ledger(pmm, if pmm == l.pmm then l.frames else l.frames + {addr / FRAME_SIZE}, l.blocks)
    case Free(f) =>
      Ledger(FreeNext(l.pmm, f * FRAME_SIZE), l.frames - {f}, l.blocks)
    case Contiguous(n) =>
      var (pmm, addr) := ContiguousNext(l.pmm, n);
      Ledger(pmm, if pmm == l.pmm then l.frames else l.frames + Run(addr / FRAME_SIZE, n), l.blocks)
    case Alloc2mb =>
      var (pmm, addr) := Alloc2mbNext(l.pmm);
      Ledger(pmm, l.frames, if pmm == l.pmm then l.blocks else l.blocks + {addr / BLOCK_SIZE})
    case Free2mb(b) =>
      Ledger(Free2mbNext(l.pmm, b * BLOCK_SIZE), l.frames, l.blocks - {b})
  }

  // The frames of a set of blocks.
  function FramesOf(blocks: set<nat>): set<nat> {
    set b, f | b in blocks && f in BlockFrames(b) :: f
  }

  predicate Partition(a: set<nat>, b: set<nat>, c: set<nat>, all: set<nat>) {
    a !! b && a !! c && b !! c && a + b + c == all
  }

  lemma {:induction false} Move(a: set<nat>, b: set<nat>, c: set<nat>, all: set<nat>, x: set<nat>)
    requires Partition(a, b, c, all) && x <= a
    ensures Partition(a - x, b + x, c, all) && |a - x| == |a| - |x|
  {
    assert a == (a - x) + x;
  }

  lemma {:induction false} PartitionSize(a: set<nat>, b: set<nat>, c: set<nat>, all: set<nat>)
    requires Partition(a, b, c, all)
    ensures |all| == |a| + |b| + |c|
  {
    assert |a + b| == |a| + |b|;
  }

  // Every frame the allocator was given is free, or in exactly one live allocation, and
  // free_frames counts the free ones and those of the live blocks.
  ghost predicate Sound(l: Ledger, initial: set<nat>) {
    && Partition(l.pmm.free, l.frames, FramesOf(l.blocks), initial)
    && (forall b :: b in l.blocks ==> 64 * b + 64 <= l.pmm.bytes)
    && l.pmm.count == |l.pmm.free| + 512 * |l.blocks|
    && |initial| < UINT64
  }

  lemma {:induction false} FramesOfMember(blocks: set<nat>, f: nat)
    ensures f in FramesOf(blocks) <==> f / 512 in blocks
  {
    assert f in BlockFrames(f / 512);
  }

  // Adding a block adds exactly its own 512 frames.
  lemma {:induction false} FramesOfAdd(blocks: set<nat>, b: nat)
    requires b !in blocks
    ensures FramesOf(blocks + {b}) == FramesOf(blocks) + BlockFrames(b)
    ensures FramesOf(blocks) !! BlockFrames(b) && |BlockFrames(b)| == 512
  {
    RunSize(512 * b, 512);
    forall f
      ensures f in FramesOf(blocks + {b}) <==> f in FramesOf(blocks) || f in BlockFrames(b)
      ensures f in BlockFrames(b) ==> f !in FramesOf(blocks)
    {
      if f >= 0 {
        FramesOfMember(blocks + {b}, f);
        FramesOfMember(blocks, f);
      }
    }
  }

  lemma {:induction false} FramesOfNone()
    ensures FramesOf({}) == {}
  {
  }

  lemma {:induction false} FramesOfSize(blocks: set<nat>)
    ensures |FramesOf(blocks)| == 512 * |blocks|
    decreases blocks
  {
    hide *;
    if blocks == {} {
      FramesOfNone();
    } else {
      var b :| b in blocks;
      FramesOfSize(blocks - {b});
      FramesOfAdd(blocks - {b}, b);
      assert blocks == blocks - {b} + {b};
    }
  }

  // The counter never wraps: it is what the run started with less the single frames out.
  lemma {:induction false} CountIsUnclaimed(l: Ledger, initial: set<nat>)
    requires Sound(l, initial)
    ensures l.pmm.count == |initial| - |l.frames|
  {
    FramesOfSize(l.blocks);
    PartitionSize(l.pmm.free, l.frames, FramesOf(l.blocks), initial);
  }

  lemma {:induction false} ClaimRunCounts(s: Pmm, start: nat, n: nat)
    requires Run(start, n) <= s.free && |s.free| <= s.count
    ensures ClaimRun(s, start, n).count == s.count - n
    ensures |ClaimRun(s, start, n).free| == |s.free| - n
  {
    ClaimRunFree(s, start, n);
    RunSize(start, n);
    if n > 0 {
      assert Run(start, n - 1) <= Run(start, n);
      ClaimRunFree(s, start, n - 1);
      ClaimRunCounts(s, start, n - 1);
    }
  }

  // What the allocations hand out, by frame.
  lemma {:induction false} AllocGives(l: Ledger)
    ensures var got := FirstFree(l.pmm.free, 0, l.pmm.total);
      Apply(l, Alloc) == if got.Some? then Ledger(Claim(l.pmm, got.value), l.frames + {got.value}, l.blocks) else l
  {
    var got := FirstFree(l.pmm.free, 0, l.pmm.total);
    if got.Some? {
      assert got.value * FRAME_SIZE / FRAME_SIZE == got.value;
      assert got.value in l.pmm.free && got.value !in Claim(l.pmm, got.value).free;
    }
  }

  lemma {:induction false} RunGives(l: Ledger, n: nat)
    ensures var got := if n == 0 then None else FirstRun(l.pmm.free, 0, n, l.pmm.total);
      Apply(l, Contiguous(n)) ==
        if got.Some? then Ledger(ClaimRun(l.pmm, got.value, n), l.frames + Run(got.value, n), l.blocks) else l
  {
    var got := if n == 0 then None else FirstRun(l.pmm.free, 0, n, l.pmm.total);
    if got.Some? {
      ClaimRunFree(l.pmm, got.value, n);
      assert got.value in Run(got.value, n);
      assert got.value * FRAME_SIZE / FRAME_SIZE == got.value;
    }
  }

  lemma {:induction false} BlockGives(l: Ledger)
    ensures var got := FirstBlock(l.pmm.free, 0, l.pmm.bytes / 64);
      Apply(l, Alloc2mb) ==
        if got.Some? then Ledger(l.pmm.(free := l.pmm.free - BlockFrames(got.value)), l.frames, l.blocks + {got.value}) else l
  {
    var got := FirstBlock(l.pmm.free, 0, l.pmm.bytes / 64);
    if got.Some? {
      assert 512 * got.value in BlockFrames(got.value);
      assert got.value * BLOCK_SIZE / BLOCK_SIZE == got.value;
    }
  }

  // What one operation hands out was free, hence in no live allocation and not part of
  // what was withheld at the start (the frames of the bitmap itself among them).
  lemma {:induction false} HandsOutFreeFrames(l: Ledger, initial: set<nat>, op: Op)
    requires Sound(l, initial) && Matches(l, op)
    ensures var l' := Apply(l, op);
      (l'.frames - l.frames) + FramesOf(l'.blocks - l.blocks) <= l.pmm.free <= initial
  {
    hide Apply, FramesOf;
    var l' := Apply(l, op);
    match op
    case Alloc =>
      AllocGives(l);
      NoNewBlocks(l'.blocks, l.blocks);
    case Contiguous(n) =>
      RunGives(l, n);
      NoNewBlocks(l'.blocks, l.blocks);
    case Alloc2mb =>
      BlockGives(l);
      NewBlock(l);
    case Free(f) =>
      FreesGive(l, op);
      NoNewBlocks(l'.blocks, l.blocks);
    case Free2mb(b) =>
      FreesGive(l, op);
      NoNewBlocks(l'.blocks, l.blocks);
  }

  lemma {:induction false} FreesGive(l: Ledger, op: Op)
    requires op.Free? || op.Free2mb?
    ensures Apply(l, op).frames <= l.frames && Apply(l, op).blocks <= l.blocks
  {
  }

  lemma {:induction false} NoNewBlocks(a: set<nat>, b: set<nat>)
    requires a <= b
    ensures FramesOf(a - b) == {}
  {
    assert a - b == {};
  }

  lemma {:induction false} NewBlock(l: Ledger)
    ensures FramesOf(Apply(l, Alloc2mb).blocks - l.blocks) <= l.pmm.free
  {
    hide Apply;
    BlockGives(l);
    forall f | f in FramesOf(Apply(l, Alloc2mb).blocks - l.blocks)
      ensures f in l.pmm.free
    {
      var b :| b in Apply(l, Alloc2mb).blocks - l.blocks && f in BlockFrames(b);
    }
  }

  // Sound with the set of block frames named, so that set arguments need not look inside it.
  lemma {:induction false} SoundFrom(l: Ledger, initial: set<nat>, taken: set<nat>)
    requires taken == FramesOf(l.blocks) && Partition(l.pmm.free, l.frames, taken, initial)
    requires forall b :: b in l.blocks ==> 64 * b + 64 <= l.pmm.bytes
    requires l.pmm.count == |l.pmm.free| + 512 * |l.blocks| && |initial| < UINT64
    ensures Sound(l, initial)
  {
  }

  lemma {:induction false} FrameTaken(l: Ledger, initial: set<nat>)
    requires Sound(l, initial)
    ensures Sound(Apply(l, Alloc), initial)
  {
    hide FramesOf, Partition, Apply;
    AllocGives(l);
    var got := FirstFree(l.pmm.free, 0, l.pmm.total);
    if got.Some? {
      Move(l.pmm.free, l.frames, FramesOf(l.blocks), initial, {got.value});
      assert l.pmm.free != {};
      SoundFrom(Apply(l, Alloc), initial, FramesOf(l.blocks));
    }
  }

  lemma {:induction false} FrameReturns(free: set<nat>, frames: set<nat>, taken: set<nat>, initial: set<nat>, f: nat)
    requires Partition(free, frames, taken, initial) && f in frames
    ensures Partition(free + {f}, frames - {f}, taken, initial)
    ensures f !in free && |free + {f}| == |free| + 1 && |frames| >= 1
  {
    Move(frames, free, taken, initial, {f});
    assert |frames - {f}| == |frames| - 1;
  }

  lemma {:induction false} FrameReturned(l: Ledger, initial: set<nat>, f: nat)
    requires Sound(l, initial) && f in l.frames
    ensures Sound(Apply(l, Free(f)), initial)
  {
    hide FramesOf, Partition;
    CountIsUnclaimed(l, initial);
    FrameReturns(l.pmm.free, l.frames, FramesOf(l.blocks), initial, f);
    assert f * FRAME_SIZE / FRAME_SIZE == f;
    SoundFrom(Apply(l, Free(f)), initial, FramesOf(l.blocks));
  }

  lemma {:induction false} RunTaken(l: Ledger, initial: set<nat>, n: nat)
    requires Sound(l, initial)
    ensures Sound(Apply(l, Contiguous(n)), initial)
  {
    hide FramesOf, Partition, Run, Apply;
    RunGives(l, n);
    var got := if n == 0 then None else FirstRun(l.pmm.free, 0, n, l.pmm.total);
    if got.Some? {
      ClaimRunFree(l.pmm, got.value, n);
      ClaimRunCounts(l.pmm, got.value, n);
      Move(l.pmm.free, l.frames, FramesOf(l.blocks), initial, Run(got.value, n));
      SoundFrom(Apply(l, Contiguous(n)), initial, FramesOf(l.blocks));
    }
  }

  lemma {:induction false} BlockTaken(l: Ledger, initial: set<nat>)
    requires Sound(l, initial)
    ensures Sound(Apply(l, Alloc2mb), initial)
  {
    hide Sound, BlockFrames, Apply;
    BlockGives(l);
    var got := FirstBlock(l.pmm.free, 0, l.pmm.bytes / 64);
    if got.Some? {
      BlockTakenAt(l, initial, got.value);
    }
  }

  lemma {:induction false} BlockTakenAt(l: Ledger, initial: set<nat>, b: nat)
    requires Sound(l, initial) && WhollyFree(l.pmm.free, b) && 64 * b + 64 <= l.pmm.bytes
    ensures Sound(Ledger(l.pmm.(free := l.pmm.free - BlockFrames(b)), l.frames, l.blocks + {b}), initial)
  {
    hide FramesOf, BlockFrames;
    FreeBlockNotLive(l, initial, b);
    FramesOfAdd(l.blocks, b);
    BlockMoves(l.pmm.free, l.frames, FramesOf(l.blocks), initial, BlockFrames(b));
    SoundFrom(Ledger(l.pmm.(free := l.pmm.free - BlockFrames(b)), l.frames, l.blocks + {b}), initial,
              FramesOf(l.blocks) + BlockFrames(b));
  }

  lemma {:induction false} FreeBlockNotLive(l: Ledger, initial: set<nat>, b: nat)
    requires Sound(l, initial) && WhollyFree(l.pmm.free, b)
    ensures b !in l.blocks
  {
    assert 512 * b in BlockFrames(b);
    FramesOfMember(l.blocks, 512 * b);
  }

  lemma {:induction false} BlockMoves(free: set<nat>, frames: set<nat>, taken: set<nat>, initial: set<nat>, block: set<nat>)
    requires Partition(free, frames, taken, initial) && block <= free && |block| == 512
    ensures Partition(free - block, frames, taken + block, initial)
    ensures |free - block| == |free| - 512
  {
    Move(free, taken, frames, initial, block);
  }

  lemma {:induction false} BlockReturns(free: set<nat>, frames: set<nat>, taken: set<nat>, initial: set<nat>, block: set<nat>)
    requires Partition(free, frames, taken + block, initial) && taken !! block && |block| == 512
    ensures Partition(free + block, frames, taken, initial)
    ensures |free + block| == |free| + 512
  {
    assert (taken + block) - block == taken;
    Move(taken + block, free, frames, initial, block);
    assert Partition(taken, free + block, frames, initial);
  }

  lemma {:induction false} BlockReturned(l: Ledger, initial: set<nat>, b: nat)
    requires Sound(l, initial) && b in l.blocks
    ensures Sound(Apply(l, Free2mb(b)), initial)
  {
    hide FramesOf, BlockFrames, Apply;
    var rest := l.blocks - {b};
    assert l.blocks == rest + {b};
    FramesOfAdd(rest, b);
    BlockReturns(l.pmm.free, l.frames, FramesOf(rest), initial, BlockFrames(b));
    BlockReturnNext(l, b);
    SoundFrom(Apply(l, Free2mb(b)), initial, FramesOf(rest));
  }

  lemma {:induction false} BlockReturnNext(l: Ledger, b: nat)
    requires 64 * b + 64 <= l.pmm.bytes
    ensures Apply(l, Free2mb(b)) == Ledger(l.pmm.(free := l.pmm.free + BlockFrames(b)), l.frames, l.blocks - {b})
  {
    assert b * BLOCK_SIZE / BLOCK_SIZE == b && b * BLOCK_SIZE / FRAME_SIZE / 8 == 64 * b;
  }

  lemma {:induction false} StepSound(l: Ledger, initial: set<nat>, op: Op)
    requires Sound(l, initial) && Matches(l, op)
    ensures Sound(Apply(l, op), initial)
  {
    match op
    case Alloc => FrameTaken(l, initial);
    case Free(f) => FrameReturned(l, initial, f);
    case Contiguous(n) => RunTaken(l, initial, n);
    case Alloc2mb => BlockTaken(l, initial);
    case Free2mb(b) => BlockReturned(l, initial, b);
  }

  function Fold(l: Ledger, ops: seq<Op>): Ledger
    decreases |ops|
  {
    if ops == [] then l else Fold(Apply(l, ops[0]), ops[1..])
  }

  predicate AllMatch(l: Ledger, ops: seq<Op>)
    decreases |ops|
  {
    ops == [] || (Matches(l, ops[0]) && AllMatch(Apply(l, ops[0]), ops[1..]))
  }

  // Over every run with matching frees: the live allocations and the free frames partition
  // what the allocator was given, and the counter obeys its drift law.
  lemma {:induction false} RunSound(l: Ledger, initial: set<nat>, ops: seq<Op>)
    requires Sound(l, initial) && AllMatch(l, ops)
    ensures Sound(Fold(l, ops), initial)
    decreases |ops|
  {
    if ops != [] {
      StepSound(l, initial, ops[0]);
      RunSound(Apply(l, ops[0]), initial, ops[1..]);
    }
  }

  // What pmm_init leaves: an exact counter, free frames below total only, nothing handed out.
  predicate Initial(pmm: Pmm) {
    pmm.count == |pmm.free| && pmm.free <= Run(0, pmm.total) && pmm.total < UINT64
  }

  lemma {:induction false} InitialSound(pmm: Pmm)
    requires Initial(pmm)
    ensures Sound(Ledger(pmm, {}, {}), pmm.free)
  {
    FramesOfNone();
    SubsetSize(pmm.free, Run(0, pmm.total));
    RunSize(0, pmm.total);
  }

  // Every run from there: the partition and the drift law hold, padding bits past total stay set, and
  // frames withheld at the start, such as those of the bitmap, are neither free nor handed out.
  lemma {:induction false} RunFromInit(pmm: Pmm, withheld: set<nat>, ops: seq<Op>)
    requires Initial(pmm) && AllMatch(Ledger(pmm, {}, {}), ops) && withheld !! pmm.free
    ensures var l := Fold(Ledger(pmm, {}, {}), ops);
      && Sound(l, pmm.free) && l.pmm.count == |pmm.free| - |l.frames|
      && l.pmm.free <= Run(0, pmm.total)
      && withheld !! l.pmm.free && withheld !! l.frames && withheld !! FramesOf(l.blocks)
  {
    hide FramesOf, Fold, AllMatch;
    InitialSound(pmm);
    RunSound(Ledger(pmm, {}, {}), pmm.free, ops);
    CountIsUnclaimed(Fold(Ledger(pmm, {}, {}), ops), pmm.free);
  }

  // ---- a free undoes its allocation ------------------------------------------------------

  lemma {:induction false} FreeUndoesAlloc(s: Pmm)
    requires s.count < UINT64 && FirstFree(s.free, 0, s.total).Some?
    ensures FreeNext(AllocNext(s).0, AllocNext(s).1) == s
  {
    var f := FirstFree(s.free, 0, s.total).value;
    assert AllocNext(s).1 / FRAME_SIZE == f;
    assert s.free - {f} + {f} == s.free;
  }

  lemma {:induction false} Free2mbUndoesAlloc2mb(s: Pmm)
    requires FirstBlock(s.free, 0, s.bytes / 64).Some?
    ensures Free2mbNext(Alloc2mbNext(s).0, Alloc2mbNext(s).1) == s
  {
    var b := FirstBlock(s.free, 0, s.bytes / 64).value;
    assert b * BLOCK_SIZE / FRAME_SIZE == 512 * b;
    assert s.free - BlockFrames(b) + BlockFrames(b) == s.free;
  }
}
