/** What a caller of the allocator gets, frame by frame. */
module PmmMeaning {
  import opened Wrappers
  import opened PmmSpec

  // Frames k .. k + n - 1 are free.
  ghost predicate AllFree(s: Pmm, k: nat, n: nat) {
    forall f: nat :: k <= f < k + n ==> f in s.free
  }

  // From s to t those frames went out of the free set, and nothing else.
  ghost predicate Taken(s: Pmm, t: Pmm, k: nat, n: nat) {
    && t.total == s.total && t.bytes == s.bytes
    && forall f: nat :: f in t.free <==> f in s.free && !(k <= f < k + n)
  }

  // From s to t they came back, and nothing else.
  ghost predicate Returned(s: Pmm, t: Pmm, k: nat, n: nat) {
    && t.total == s.total && t.bytes == s.bytes
    && forall f: nat :: f in t.free <==> f in s.free || k <= f < k + n
  }

  // First fit of n frames below total: addr is where the lowest n free frames in a row begin, and they
  // are taken and counted. Without such frames nothing happens and addr is 0.
  ghost predicate FramesHandedOut(s: Pmm, t: Pmm, addr: nat, n: nat) {
    if exists k: nat :: k + n <= s.total && AllFree(s, k, n) then
      var start := addr / 4096;
      && addr % 4096 == 0 && start + n <= s.total && AllFree(s, start, n) && Taken(s, t, start, n)
      && (forall k: nat :: k < start ==> !AllFree(s, k, n))
      && (n <= s.count ==> t.count == s.count - n)
    else
      t == s && addr == 0
  }

  // The same for an aligned block of 512 frames with its 64 bytes in the bitmap, but for the counter.
  ghost predicate BlockHandedOut(s: Pmm, t: Pmm, addr: nat) {
    if exists b: nat :: 64 * b + 64 <= s.bytes && AllFree(s, 512 * b, 512) then
      var b := addr / 0x20_0000;
      && addr % 0x20_0000 == 0 && 64 * b + 64 <= s.bytes && AllFree(s, 512 * b, 512) && Taken(s, t, 512 * b, 512)
      && (forall c: nat :: c < b ==> !AllFree(s, 512 * c, 512))
      && t.count == s.count
    else
      t == s && addr == 0
  }

  lemma {:induction false} RunIs(s: Pmm, k: nat, n: nat)
    ensures AllFree(s, k, n) <==> Run(k, n) <= s.free
    ensures forall f: nat :: f in s.free - Run(k, n) <==> f in s.free && !(k <= f < k + n)
  {
    if AllFree(s, k, n) {
      forall f: nat | f in Run(k, n)
        ensures f in s.free
      {
      }
    }
  }

  lemma {:induction false} ClaimRunDrops(s: Pmm, start: nat, n: nat)
    requires Run(start, n) <= s.free && n <= s.count
    ensures ClaimRun(s, start, n).count == s.count - n
  {
    if n > 0 {
      assert Run(start, n - 1) <= Run(start, n);
      ClaimRunDrops(s, start, n - 1);
      ClaimRunFree(s, start, n - 1);
    }
  }

  lemma {:induction false} ContiguousMeans(s: Pmm, n: nat)
    requires n > 0
    ensures FramesHandedOut(s, ContiguousNext(s, n).0, ContiguousNext(s, n).1, n)
  {
    hide Run, ClaimRun, AllFree;
    forall k: nat
      ensures AllFree(s, k, n) <==> Run(k, n) <= s.free
    {
      RunIs(s, k, n);
    }
    var got := FirstRun(s.free, 0, n, s.total);
    if got.Some? {
      ClaimRunFree(s, got.value, n);
      RunIs(s, got.value, n);
      assert got.value * FRAME_SIZE / 4096 == got.value;
      if n <= s.count {
        ClaimRunDrops(s, got.value, n);
      }
    }
  }

  lemma {:induction false} AllocMeans(s: Pmm)
    ensures FramesHandedOut(s, AllocNext(s).0, AllocNext(s).1, 1)
  {
    hide AllFree;
    forall k: nat
      ensures AllFree(s, k, 1) <==> k in s.free
    {
      OneFree(s, k);
    }
    var got := FirstFree(s.free, 0, s.total);
    if got.Some? {
      assert got.value * FRAME_SIZE / 4096 == got.value;
    }
  }

  lemma {:induction false} OneFree(s: Pmm, k: nat)
    ensures AllFree(s, k, 1) <==> k in s.free
  {
  }

  lemma {:induction false} BlockMeans(s: Pmm)
    ensures BlockHandedOut(s, Alloc2mbNext(s).0, Alloc2mbNext(s).1)
  {
    hide Run, AllFree;
    forall b: nat
      ensures AllFree(s, 512 * b, 512) <==> WhollyFree(s.free, b)
    {
      RunIs(s, 512 * b, 512);
    }
    var got := FirstBlock(s.free, 0, s.bytes / 64);
    if got.Some? {
      RunIs(s, 512 * got.value, 512);
      assert got.value * BLOCK_SIZE / 0x20_0000 == got.value;
    }
  }

  lemma {:induction false} FreeMeans(s: Pmm, addr: nat)
    ensures addr % 4096 != 0 ==> FreeNext(s, addr) == s
    ensures addr % 4096 == 0 ==> Returned(s, FreeNext(s, addr), addr / 4096, 1)
    ensures addr % 4096 == 0 && addr / 4096 !in s.free && s.count < 0xffff_ffff_ffff_ffff ==> FreeNext(s, addr).count == s.count + 1
    ensures addr / 4096 in s.free ==> FreeNext(s, addr) == s
  {
  }

  lemma {:induction false} FreeBlockMeans(s: Pmm, addr: nat)
    ensures if addr % 0x20_0000 == 0 && addr / 0x8000 + 64 <= s.bytes then
        Returned(s, Free2mbNext(s, addr), addr / 4096, 512) && Free2mbNext(s, addr).count == s.count
      else
        Free2mbNext(s, addr) == s
  {
    hide Run;
    var b := addr / BLOCK_SIZE;
    assert addr / FRAME_SIZE / 8 == addr / 0x8000;
    if addr % BLOCK_SIZE == 0 {
      assert addr / 4096 == 512 * b;
      BlockMember(b);
    }
  }

  lemma {:induction false} BlockMember(b: nat)
    ensures forall f: nat :: f in BlockFrames(b) <==> 512 * b <= f < 512 * b + 512
  {
  }
}
