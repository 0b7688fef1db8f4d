/** Where first fit puts the pages of a heap and their tables, in terms of the free frames alone. */
module FirstFit {
  import opened Wrappers
  import opened Sets
  import opened PmmSpec
  import opened HeapProofs
  import opened HeapRuns

  // The free frames without the m lowest of them below total.
  function WithoutLowest(free: set<nat>, total: nat, m: nat): (rest: set<nat>)
    ensures rest <= free
    decreases m
  {
    if m == 0 then free
    else match FirstFree(free, 0, total)
      case None => free
      case Some(f) => WithoutLowest(free - {f}, total, m - 1)
  }

  // Allocator geometry: total_frames, and how many aligned blocks the bitmap has.
  datatype Geometry = Geometry(total: nat, blocks: nat)

  // One heap page: the lowest wholly free block for it, then the lowest frames for m tables.
  function AfterPage(free: set<nat>, g: Geometry, m: nat): (rest: set<nat>)
    ensures rest <= free
  {
    match FirstBlock(free, 0, g.blocks)
    case None => free
    case Some(b) => WithoutLowest(free - BlockFrames(b), g.total, m)
  }

  // A page for each entry, which says how many tables the page needs.
  function AfterPages(free: set<nat>, g: Geometry, ms: seq<nat>): (rest: set<nat>)
    ensures rest <= free
    decreases |ms|
  {
    if ms == [] then free else AfterPages(AfterPage(free, g, ms[0]), g, ms[1..])
  }

  // The blocks of these pages.
  function Blocks(free: set<nat>, g: Geometry, ms: seq<nat>): (blocks: seq<nat>)
    ensures |blocks| == |ms|
    decreases |ms|
  {
    if ms == [] then []
    else
      var b := FirstBlock(free, 0, g.blocks);
      [if b.Some? then b.value else 0] + Blocks(AfterPage(free, g, ms[0]), g, ms[1..])
  }

  // There is a wholly free block for each page.
  predicate Suffice(free: set<nat>, g: Geometry, ms: seq<nat>)
    decreases |ms|
  {
    ms == [] || (FirstBlock(free, 0, g.blocks).Some? && Suffice(AfterPage(free, g, ms[0]), g, ms[1..]))
  }

  lemma {:induction false} PagesJoin(free: set<nat>, g: Geometry, a: seq<nat>, b: seq<nat>)
    ensures AfterPages(free, g, a + b) == AfterPages(AfterPages(free, g, a), g, b)
    ensures Blocks(free, g, a + b) == Blocks(free, g, a) + Blocks(AfterPages(free, g, a), g, b)
    ensures Suffice(free, g, a + b) <==> Suffice(free, g, a) && Suffice(AfterPages(free, g, a), g, b)
    decreases |a|
  {
    hide AfterPage;
    if a == [] {
      assert a + b == b;
    } else {
      assert (a + b)[0] == a[0] && (a + b)[1..] == a[1..] + b;
      PagesJoin(AfterPage(free, g, a[0]), g, a[1..], b);
    }
  }

  // ---- the same blocks again -------------------------------------------------------------------------

  function NoTables(n: nat): (ms: seq<nat>)
    ensures |ms| == n
  {
    if n == 0 then [] else [0] + NoTables(n - 1)
  }

  lemma {:induction false} FirstUnion(b: nat, rest: seq<nat>)
    ensures BlockUnion([b] + rest) == BlockFrames(b) + BlockUnion(rest)
  {
    hide BlockFrames, BlockUnion;
    var all := [b] + rest;
    UnionFirst(all, 0);
    assert all[0..] == all && all[0] == b && all[1..] == rest;
  }

  // What a page takes is its block and its tables.
  lemma {:induction false} PageTakes(free: set<nat>, g: Geometry, m: nat, b: nat)
    requires FirstBlock(free, 0, g.blocks) == Some(b)
    ensures AfterPage(free, g, m) <= free - BlockFrames(b) && BlockFrames(b) <= free
  {
    assert WhollyFree(free, b);
  }

  lemma {:induction false} BlocksWithin(free: set<nat>, g: Geometry, ms: seq<nat>)
    requires Suffice(free, g, ms)
    ensures BlockUnion(Blocks(free, g, ms)) <= free && BlockUnion(Blocks(free, g, ms)) !! AfterPages(free, g, ms)
    decreases |ms|
  {
    hide AfterPage, BlockFrames, BlockUnion;
    if ms == [] {
      assert BlockUnion([]) == {} by { NoUnion(); }
    } else {
      var b := FirstBlock(free, 0, g.blocks).value;
      var next := AfterPage(free, g, ms[0]);
      PageTakes(free, g, ms[0], b);
      BlocksWithin(next, g, ms[1..]);
      FirstUnion(b, Blocks(next, g, ms[1..]));
    }
  }

  lemma {:induction false} NoUnion()
    ensures BlockUnion([]) == {}
  {
  }

  // With fewer frames free, the lowest wholly free block is the same as long as it is still free.
  lemma {:induction false} SameFirst(free: set<nat>, less: set<nat>, limit: nat, b: nat)
    requires less <= free && FirstBlock(free, 0, limit) == Some(b) && BlockFrames(b) <= less
    ensures FirstBlock(less, 0, limit) == Some(b)
  {
    assert WhollyFree(less, b);
    var r := FirstBlock(less, 0, limit);
    assert r.Some?;
    assert WhollyFree(free, r.value);
  }

  // With the tables in place and the blocks given back, the same pages take the same blocks again,
  // and no frame more.
  lemma {:induction false} Replay(free: set<nat>, g: Geometry, ms: seq<nat>)
    requires Suffice(free, g, ms)
    ensures var again := AfterPages(free, g, ms) + BlockUnion(Blocks(free, g, ms));
      && Suffice(again, g, NoTables(|ms|))
      && AfterPages(again, g, NoTables(|ms|)) == AfterPages(free, g, ms)
      && Blocks(again, g, NoTables(|ms|)) == Blocks(free, g, ms)
    decreases |ms|
  {
    hide BlockFrames, BlockUnion, FirstBlock;
    if ms == [] {
      NoUnion();
    } else {
      var b := FirstBlock(free, 0, g.blocks).value;
      var next := AfterPage(free, g, ms[0]);
      var rest := ms[1..];
      Replay(next, g, rest);
      BlocksWithin(free, g, ms);
      BlocksWithin(next, g, rest);
      PageTakes(free, g, ms[0], b);
      FirstUnion(b, Blocks(next, g, rest));
      var again := AfterPages(free, g, ms) + BlockUnion(Blocks(free, g, ms));
      SameFirst(free, again, g.blocks, b);
      assert again - BlockFrames(b) == AfterPages(next, g, rest) + BlockUnion(Blocks(next, g, rest));
      assert NoTables(|ms|)[0] == 0 && NoTables(|ms|)[1..] == NoTables(|rest|);
    }
  }

  lemma {:induction false} NoTablesJoin(k: nat, n: nat)
    ensures NoTables(k) + NoTables(n) == NoTables(k + n)
  {
    if k > 0 {
      NoTablesJoin(k - 1, n);
      assert [0] + NoTables(k - 1) + NoTables(n) == [0] + (NoTables(k - 1) + NoTables(n));
    }
  }

  // ---- frames that are spared --------------------------------------------------------------------------

  function Sum(ms: seq<nat>): nat {
    if ms == [] then 0 else ms[0] + Sum(ms[1..])
  }

  // The free frames below f.
  function Below(free: set<nat>, f: nat): set<nat> {
    set x | x in free && x < f
  }

  // What was taken from the pool lies below what is left.
  ghost predicate LowestTaken(pool: set<nat>, free: set<nat>) {
    free <= pool && forall x, y :: x in pool && x !in free && y in free ==> x < y
  }

  // A frame was taken if and only if fewer lie below it than were taken.
  lemma {:induction false} TakenExact(pool: set<nat>, free: set<nat>, f: nat)
    requires LowestTaken(pool, free) && f in pool
    ensures f !in free <==> |Below(pool, f)| < |pool - free|
  {
    if f in free {
      assert pool - free <= Below(pool, f);
      SubsetSize(pool - free, Below(pool, f));
    } else {
      assert Below(pool, f) + {f} <= pool - free;
      SubsetSize(Below(pool, f) + {f}, pool - free);
    }
  }

  // All that was taken lies below f, if there were as many frames.
  lemma {:induction false} TakenBelow(pool: set<nat>, free: set<nat>, f: nat)
    requires LowestTaken(pool, free) && |pool - free| <= |Below(pool, f)|
    ensures pool - free <= Below(pool, f) && |Below(free, f)| == |Below(pool, f)| - |pool - free|
  {
    var taken, low := pool - free, Below(pool, f);
    if x :| x in taken && f <= x {
      assert low + {x} <= taken;
      SubsetSize(low + {x}, taken);
      assert false;
    }
    assert Below(free, f) == low - taken;
  }

  // The tables lie below f while there are free frames below it.
  lemma {:induction false} LowestBelow(free: set<nat>, total: nat, m: nat, f: nat)
    requires m <= |Below(free, f)| && f <= total
    ensures var rest := WithoutLowest(free, total, m);
      free - rest <= Below(free, f) && |Below(rest, f)| == |Below(free, f)| - m
    decreases m
  {
    if m > 0 {
      var x :| x in Below(free, f);
      var first := FirstFree(free, 0, total).value;
      assert first <= x;
      assert Below(free - {first}, f) == Below(free, f) - {first};
      LowestBelow(free - {first}, total, m - 1, f);
      var rest := WithoutLowest(free, total, m);
      assert free - rest <= {first} + (free - {first} - rest);
    } else {
      assert free - free == {};
    }
  }

  // Frames at f and above are the ones before, so blocks there are as free as they were.
  lemma {:induction false} BlocksAbove(free: set<nat>, rest: set<nat>, f: nat, b: nat)
    requires rest <= free && free - rest <= Below(free, f) && f <= 512 * b
    ensures WhollyFree(rest, b) <==> WhollyFree(free, b)
  {
    BlockBounds(b);
    if WhollyFree(free, b) {
      forall x | x in BlockFrames(b)
        ensures x in rest
      {
        assert x !in free - rest;
      }
    }
  }

  lemma {:induction false} LowBlockFrames(free: set<nat>, q: nat)
    ensures |WholeBlocks(free, q)| <= |Below(free, 512 * q)|
  {
    BlocksAreFrames(Below(free, 512 * q), q);
    var a, b := WholeBlocks(free, q), WholeBlocks(Below(free, 512 * q), q);
    forall x | x in a
      ensures x in b
    {
      BlockBounds(x);
    }
    SubsetSize(a, b);
  }

  // One page and its tables, with enough wholly free blocks below block q: all of it is below, and
  // it costs at most one such block and one for each table.
  lemma {:induction false} PageBelow(free: set<nat>, g: Geometry, m: nat, q: nat)
    requires m + 1 <= |WholeBlocks(free, q)| && q <= g.blocks && 512 * q <= g.total
    ensures free - AfterPage(free, g, m) <= Below(free, 512 * q)
    ensures |WholeBlocks(AfterPage(free, g, m), q)| >= |WholeBlocks(free, q)| - m - 1
  {
    var x :| x in WholeBlocks(free, q);
    assert x < g.blocks && WhollyFree(free, x);
    var b := FirstBlock(free, 0, g.blocks).value;
    assert b <= x;
    var less := free - BlockFrames(b);
    OneBlockLess(free, q, b);
    SubsetSize(WholeBlocks(free, q) - {b}, WholeBlocks(less, q));
    LowBlockFrames(less, q);
    LowestBelow(less, g.total, m, 512 * q);
    var rest := AfterPage(free, g, m);
    BlockBounds(b);
    assert free - rest <= BlockFrames(b) + (less - rest);
    assert BlockFrames(b) <= Below(free, 512 * q);
    TakenSize(less, g.total, m);
    FramesLess(less, q, less - rest);
    assert less - (less - rest) == rest;
  }

  lemma {:induction false} TakenSize(free: set<nat>, total: nat, m: nat)
    ensures |free - WithoutLowest(free, total, m)| <= m
    decreases m
  {
    if m > 0 {
      match FirstFree(free, 0, total)
      case None =>
        assert free - free == {};
      case Some(f) =>
        var rest := WithoutLowest(free - {f}, total, m - 1);
        TakenSize(free - {f}, total, m - 1);
        SubsetSize(free - rest, free - {f} - rest + {f});
    } else {
      assert free - free == {};
    }
  }

  // With a wholly free block below q for every page and every table, nothing from block q on is taken.
  lemma {:induction false} LowBlocksSpare(free: set<nat>, g: Geometry, ms: seq<nat>, q: nat)
    requires |ms| + Sum(ms) <= |WholeBlocks(free, q)| && q <= g.blocks && 512 * q <= g.total
    ensures Suffice(free, g, ms) && free - AfterPages(free, g, ms) <= Below(free, 512 * q)
    decreases |ms|
  {
    hide AfterPage, WholeBlocks;
    if ms != [] {
      var next := AfterPage(free, g, ms[0]);
      PageBelow(free, g, ms[0], q);
      LowBlocksSpare(next, g, ms[1..], q);
      SomeBlock(free, g, q);
      var rest := AfterPages(free, g, ms);
      assert free - rest <= (free - next) + (next - rest);
      assert Below(next, 512 * q) <= Below(free, 512 * q);
    } else {
      assert free - free == {};
    }
  }

  lemma {:induction false} SomeBlock(free: set<nat>, g: Geometry, q: nat)
    requires |WholeBlocks(free, q)| > 0 && q <= g.blocks
    ensures FirstBlock(free, 0, g.blocks).Some?
  {
    var x :| x in WholeBlocks(free, q);
    assert x < g.blocks && WhollyFree(free, x);
  }

  // ---- when the tables fit below all wholly free blocks ------------------------------------------------

  // No wholly free block begins below frame low.
  predicate NoneBelow(free: set<nat>, g: Geometry, low: nat) {
    forall b :: 0 <= b < g.blocks && WhollyFree(free, b) ==> low <= 512 * b
  }

  // Then a page with its tables costs exactly the lowest wholly free block, and frames below low.
  lemma {:induction false} PageExact(free: set<nat>, g: Geometry, m: nat, low: nat)
    requires NoneBelow(free, g, low) && m <= |Below(free, low)| && low <= g.total
    requires FirstBlock(free, 0, g.blocks).Some?
    ensures var rest, b := AfterPage(free, g, m), FirstBlock(free, 0, g.blocks).value;
      && NoneBelow(rest, g, low) && |Below(rest, low)| == |Below(free, low)| - m
      && free - rest <= Below(free, low) + BlockFrames(b) && BlockFrames(b) !! rest
      && forall c :: 0 <= c < g.blocks ==> (WhollyFree(rest, c) <==> WhollyFree(free, c) && c != b)
  {
    var b := FirstBlock(free, 0, g.blocks).value;
    var less := free - BlockFrames(b);
    var rest := AfterPage(free, g, m);
    BlockBounds(b);
    assert Below(less, low) == Below(free, low);
    LowestBelow(less, g.total, m, low);
    assert BlockFrames(b) !! rest;
    forall c | 0 <= c < g.blocks
      ensures WhollyFree(rest, c) <==> WhollyFree(free, c) && c != b
    {
      OneBlock(free, less, rest, low, b, c);
    }
  }

  lemma {:induction false} OneBlock(free: set<nat>, less: set<nat>, rest: set<nat>, low: nat, b: nat, c: nat)
    requires less == free - BlockFrames(b) && rest <= less && less - rest <= Below(less, low)
    requires WhollyFree(free, c) ==> low <= 512 * c
    ensures WhollyFree(rest, c) <==> WhollyFree(free, c) && c != b
  {
    BlockBounds(b);
    BlockBounds(c);
    assert 512 * c in BlockFrames(c);
    if WhollyFree(free, c) && c != b {
      assert WhollyFree(less, c);
      BlocksAbove(less, rest, low, c);
    }
    if WhollyFree(rest, c) {
      assert BlockFrames(c) <= free;
    }
  }

  // So pages take the wholly free blocks in order: the first frame of block q is spared if and only
  // if its block is not wholly free or the lower ones are enough.
  lemma {:induction false} SparedExact(free: set<nat>, g: Geometry, ms: seq<nat>, low: nat, q: nat)
    requires Suffice(free, g, ms) && NoneBelow(free, g, low) && Sum(ms) <= |Below(free, low)| && low <= g.total
    requires 512 * q in free && low <= 512 * q && (WhollyFree(free, q) ==> q < g.blocks)
    ensures 512 * q in AfterPages(free, g, ms) <==> !WhollyFree(free, q) || |ms| <= |WholeBlocks(free, q)|
    decreases |ms|
  {
    hide AfterPage;
    if ms != [] {
      var b, rest := FirstBlock(free, 0, g.blocks).value, AfterPage(free, g, ms[0]);
      PageExact(free, g, ms[0], low);
      BlockBounds(b);
      BlockBounds(q);
      assert 512 * q in BlockFrames(q);
      if 512 * q in rest {
        SparedExact(rest, g, ms[1..], low, q);
        if WhollyFree(free, q) {
          assert b < q by { assert b <= q; }
          assert WholeBlocks(rest, q) == WholeBlocks(free, q) - {b};
          assert b in WholeBlocks(free, q);
        }
      } else {
        assert 512 * q in BlockFrames(b);
        assert b == q;
        assert WholeBlocks(free, q) == {};
      }
    }
  }
}
