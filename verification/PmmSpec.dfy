/**
 The frame allocator as a function on values: which frames are free, and what each
 operation does to that set and to the free-frame counter. The class in Pmm.dfy works
 on bytes and bits and is proved equal to this.
 */
module PmmSpec {
  import opened Wrappers
  import opened Sets

  const FRAME_SIZE: nat := 4096
  const BLOCK_SIZE: nat := 0x200000
  const UINT64: nat := 0x1_0000_0000_0000_0000

  // free: frames whose bitmap bit is clear. total: pmm.total_frames.
  // bytes: pmm.bitmap_size. count: pmm.free_frames, a 64-bit counter.
  datatype Pmm = Pmm(free: set<nat>, total: nat, bytes: nat, count: nat)

  // ---- searches, with their meaning -------------------------------------------------

  // The lowest free frame in [from, limit).
  function FirstFree(free: set<nat>, from: nat, limit: nat): (r: Option<nat>)
    ensures r.Some? ==> from <= r.value < limit && r.value in free
    ensures r.Some? ==> forall g :: from <= g < r.value ==> g !in free
    ensures r.None? ==> forall g :: from <= g < limit ==> g !in free
    decreases limit - from
  {
    if from >= limit then None
    else if from in free then Some(from)
    else FirstFree(free, from + 1, limit)
  }

  predicate InRun(f: nat, start: nat, n: nat) {
    start <= f < start + n
  }

  // The n consecutive frames from start.
  function Run(start: nat, n: nat): set<nat> {
    set f: nat | start <= f < start + n && InRun(f, start, n)
  }

  lemma {:induction false} RunSize(start: nat, n: nat)
    ensures |Run(start, n)| == n
  {
    if n == 0 {
      assert Run(start, n) == {};
    } else {
      RunSize(start, n - 1);
      assert Run(start, n) == Run(start, n - 1) + {start + n - 1};
    }
  }

  // The 512 frames of the aligned 2 MB block b.
  function BlockFrames(b: nat): set<nat> {
    Run(512 * b, 512)
  }

  predicate WhollyFree(free: set<nat>, b: nat) {
    BlockFrames(b) <= free
  }

  // The lowest wholly free block in [from, limit).
  function FirstBlock(free: set<nat>, from: nat, limit: nat): (r: Option<nat>)
    ensures r.Some? ==> from <= r.value < limit && WhollyFree(free, r.value)
    ensures r.Some? ==> forall c :: from <= c < r.value ==> !WhollyFree(free, c)
    ensures r.None? ==> forall c :: from <= c < limit ==> !WhollyFree(free, c)
    decreases limit - from
  {
    if from >= limit then None
    else if WhollyFree(free, from) then Some(from)
    else FirstBlock(free, from + 1, limit)
  }

  // The lowest start >= from of n free frames that all lie below total.
  function FirstRun(free: set<nat>, from: nat, n: nat, total: nat): (r: Option<nat>)
    ensures r.Some? ==> from <= r.value && r.value + n <= total && Run(r.value, n) <= free
    ensures r.Some? ==> forall s :: from <= s < r.value ==> !(Run(s, n) <= free)
    ensures r.None? ==> forall s :: from <= s && s + n <= total ==> !(Run(s, n) <= free)
    decreases total - from
  {
    if from + n > total then None
    else if Run(from, n) <= free then Some(from)
    else if from == total then None
    else FirstRun(free, from + 1, n, total)
  }

  // ---- operations --------------------------------------------------------------------

  // free_frames-- and free_frames++ on 64 bits.
  function Decrement(count: nat): nat {
    if count == 0 then UINT64 - 1 else count - 1
  }

  function Increment(count: nat): nat {
    if count == UINT64 - 1 then 0 else count + 1
  }

  function Claim(s: Pmm, f: nat): Pmm {
    if f in s.free then s.(free := s.free - {f}, count := Decrement(s.count)) else s
  }

  function Release(s: Pmm, f: nat): Pmm {
    if f in s.free then s else s.(free := s.free + {f}, count := Increment(s.count))
  }

  // Address 0 is the failure return. It is also what a successful claim of frame 0 returns.
  function AllocNext(s: Pmm): (Pmm, nat) {
    match FirstFree(s.free, 0, s.total)
    case None => (s, 0)
    case Some(f) => (Claim(s, f), f * FRAME_SIZE)
  }

  function FreeNext(s: Pmm, addr: nat): Pmm {
    if addr % FRAME_SIZE != 0 then s else Release(s, addr / FRAME_SIZE)
  }

  // The 2 MB operations leave the counter alone.
  function Alloc2mbNext(s: Pmm): (Pmm, nat) {
    match FirstBlock(s.free, 0, s.bytes / 64)
    case None => (s, 0)
    case Some(b) => (s.(free := s.free - BlockFrames(b)), b * BLOCK_SIZE)
  }

  function Free2mbNext(s: Pmm, addr: nat): Pmm {
    if addr % BLOCK_SIZE != 0 || addr / FRAME_SIZE / 8 + 64 > s.bytes then s
    else s.(free := s.free + BlockFrames(addr / BLOCK_SIZE))
  }

  function ClaimRun(s: Pmm, start: nat, n: nat): Pmm {
    if n == 0 then s else Claim(ClaimRun(s, start, n - 1), start + n - 1)
  }

  function ReleaseRun(s: Pmm, start: nat, n: nat): Pmm {
    if n == 0 then s else Release(ReleaseRun(s, start, n - 1), start + n - 1)
  }

  function ContiguousNext(s: Pmm, n: nat): (Pmm, nat) {
    if n == 0 then (s, 0)
    else match FirstRun(s.free, 0, n, s.total)
      case None => (s, 0)
      case Some(f) => (ClaimRun(s, f, n), f * FRAME_SIZE)
  }

  lemma {:induction false} ClaimRunFree(s: Pmm, start: nat, n: nat)
    ensures ClaimRun(s, start, n).free == s.free - Run(start, n)
    ensures ClaimRun(s, start, n).total == s.total && ClaimRun(s, start, n).bytes == s.bytes
  {
    if n > 0 {
      ClaimRunFree(s, start, n - 1);
    }
  }

  lemma {:induction false} ReleaseRunFree(s: Pmm, start: nat, n: nat)
    ensures ReleaseRun(s, start, n).free == s.free + Run(start, n)
    ensures ReleaseRun(s, start, n).total == s.total && ReleaseRun(s, start, n).bytes == s.bytes
  {
    if n > 0 {
      ReleaseRunFree(s, start, n - 1);
    }
  }

  // The counter is the number of free frames.
  predicate CountExact(s: Pmm) {
    s.count == |s.free| < UINT64
  }

  lemma {:induction false} ClaimRunCount(s: Pmm, start: nat, n: nat)
    requires CountExact(s)
    ensures CountExact(ClaimRun(s, start, n))
  {
    if n > 0 {
      ClaimRunCount(s, start, n - 1);
    }
  }

  lemma {:induction false} ReleaseRunCount(s: Pmm, start: nat, n: nat, limit: nat)
    requires CountExact(s) && s.free <= Run(0, limit) && Run(start, n) <= Run(0, limit) && limit < UINT64
    ensures CountExact(ReleaseRun(s, start, n))
  {
    if n > 0 {
      assert Run(start, n - 1) <= Run(start, n);
      ReleaseRunCount(s, start, n - 1, limit);
      ReleaseRunFree(s, start, n);
      assert ReleaseRun(s, start, n).free <= Run(0, limit);
      SubsetSize(ReleaseRun(s, start, n).free, Run(0, limit));
      RunSize(0, limit);
    }
  }
}
