/**
 The physical memory manager: one bit a frame, packed in bytes, set when the frame is
 claimed. Every method is proved equal to its function in PmmSpec.
 */
module Pmm {
  import opened Wrappers
  import opened Bits
  import opened PmmSpec
  import opened PmmMeaning
  import opened MemoryMap

  // ---- the set of free frames a bitmap denotes ----------------------------------------

  predicate IsFree(bits: seq<bv8>, f: nat)
    requires f < 8 * |bits|
  {
    !Bit(bits[f / 8], f % 8)
  }

  function FreeSet(bits: seq<bv8>): (free: set<nat>)
    ensures forall f :: f in free <==> 0 <= f < 8 * |bits| && IsFree(bits, f)
  {
    set f: nat | f < 8 * |bits| && IsFree(bits, f)
  }

  // The bitmap with the bit of frame f set, and cleared.
  function SetFrame(bits: seq<bv8>, f: nat): seq<bv8>
    requires f < 8 * |bits|
  {
    bits[f / 8 := bits[f / 8] | Mask(f % 8)]
  }

  function ClearFrame(bits: seq<bv8>, f: nat): seq<bv8>
    requires f < 8 * |bits|
  {
    bits[f / 8 := bits[f / 8] & !Mask(f % 8)]
  }

  lemma {:induction false} SetFrameClaims(bits: seq<bv8>, f: nat)
    requires f < 8 * |bits|
    ensures FreeSet(SetFrame(bits, f)) == FreeSet(bits) - {f}
  {
    hide IsFree;
    forall g: nat | g < 8 * |bits|
      ensures IsFree(SetFrame(bits, f), g) == (g != f && IsFree(bits, g))
    {
      SetOne(bits, f, g);
    }
  }

  lemma {:induction false} SetOne(bits: seq<bv8>, f: nat, g: nat)
    requires f < 8 * |bits| && g < 8 * |bits|
    ensures IsFree(SetFrame(bits, f), g) == (g != f && IsFree(bits, g))
  {
    hide Bit, Mask;
    SetBit(bits[f / 8], f % 8, g % 8);
  }

  lemma {:induction false} ClearOne(bits: seq<bv8>, f: nat, g: nat)
    requires f < 8 * |bits| && g < 8 * |bits|
    ensures IsFree(ClearFrame(bits, f), g) == (g == f || IsFree(bits, g))
  {
    hide Bit, Mask;
    ClearBit(bits[f / 8], f % 8, g % 8);
  }

  // The test the code makes.
  lemma {:induction false} FreeBit(bits: seq<bv8>, f: nat)
    requires f < 8 * |bits|
    ensures f in FreeSet(bits) <==> bits[f / 8] & Mask(f % 8) == 0
  {
  }

  lemma {:induction false} ClearFrameFrees(bits: seq<bv8>, f: nat)
    requires f < 8 * |bits|
    ensures FreeSet(ClearFrame(bits, f)) == FreeSet(bits) + {f}
  {
    hide IsFree;
    forall g: nat | g < 8 * |bits|
      ensures IsFree(ClearFrame(bits, f), g) == (g == f || IsFree(bits, g))
    {
      ClearOne(bits, f, g);
    }
  }

  lemma {:induction false} FrameByte(f: nat, i: nat)
    requires 8 * i <= f < 8 * i + 8
    ensures f / 8 == i && f % 8 == f - 8 * i
  {
  }

  lemma {:induction false} FrameBit(bits: seq<bv8>, i: nat, f: nat)
    requires i < |bits| && 8 * i <= f < 8 * i + 8
    ensures IsFree(bits, f) == !Bit(bits[i], f - 8 * i)
  {
    FrameByte(f, i);
  }

  lemma {:induction false} ByteFrames(bits: seq<bv8>, i: nat)
    requires i < |bits|
    ensures bits[i] == 0xff <==> forall f: nat :: 8 * i <= f < 8 * i + 8 ==> !IsFree(bits, f)
    ensures bits[i] == 0 <==> forall f: nat :: 8 * i <= f < 8 * i + 8 ==> IsFree(bits, f)
  {
    FullByte(bits[i]);
    EmptyByte(bits[i]);
    forall f: nat | 8 * i <= f < 8 * i + 8
      ensures IsFree(bits, f) == !Bit(bits[i], f - 8 * i)
    {
      FrameBit(bits, i, f);
    }
    forall k: nat | k < 8
      ensures IsFree(bits, 8 * i + k) == !Bit(bits[i], k)
    {
      FrameBit(bits, i, 8 * i + k);
    }
  }

  // Two bitmaps of one length with the same free frames are the same bytes.
  lemma {:induction false} BitmapDetermined(a: seq<bv8>, b: seq<bv8>)
    requires |a| == |b| && FreeSet(a) == FreeSet(b)
    ensures a == b
  {
    forall i | 0 <= i < |a|
      ensures a[i] == b[i]
    {
      forall k: nat | k < 8
        ensures Bit(a[i], k) == Bit(b[i], k)
      {
        assert IsFree(a, 8 * i + k) == IsFree(b, 8 * i + k);
      }
      ByteExtensionality(a[i], b[i]);
    }
  }

  // A block is 64 whole bytes of the bitmap.
  lemma {:induction false} BlockBytes(bits: seq<bv8>, b: nat)
    requires 64 * b + 64 <= |bits|
    ensures WhollyFree(FreeSet(bits), b) <==> forall i :: 64 * b <= i < 64 * b + 64 ==> bits[i] == 0
  {
    if forall i :: 64 * b <= i < 64 * b + 64 ==> bits[i] == 0 {
      forall f: nat | f in BlockFrames(b)
        ensures f in FreeSet(bits)
      {
        FrameByte(f, f / 8);
        ByteFrames(bits, f / 8);
      }
    }
    if WhollyFree(FreeSet(bits), b) {
      forall i | 64 * b <= i < 64 * b + 64
        ensures bits[i] == 0
      {
        assert forall f: nat :: 8 * i <= f < 8 * i + 8 ==> f in BlockFrames(b);
        ByteFrames(bits, i);
      }
    }
  }

  // now is was with the 64 bytes of block b overwritten by v.
  predicate BlockFilled(was: seq<bv8>, now: seq<bv8>, b: nat, v: bv8) {
    && |now| == |was|
    && forall i :: 0 <= i < |was| ==> now[i] == if 64 * b <= i < 64 * b + 64 then v else was[i]
  }

  lemma {:induction false} FillEffect(was: seq<bv8>, now: seq<bv8>, b: nat, v: bv8)
    requires 64 * b + 64 <= |was| && BlockFilled(was, now, b, v) && (v == 0 || v == 0xff)
    ensures v == 0xff ==> FreeSet(now) == FreeSet(was) - BlockFrames(b)
    ensures v == 0 ==> FreeSet(now) == FreeSet(was) + BlockFrames(b)
  {
    forall f: nat | f < 8 * |was|
      ensures f in BlockFrames(b) ==> IsFree(now, f) == (v == 0)
      ensures f !in BlockFrames(b) ==> IsFree(now, f) == IsFree(was, f)
    {
      FrameByte(f, f / 8);
      ByteFrames(now, f / 8);
    }
  }

  // A bitmap of ones.
  lemma {:induction false} NoneFree(bits: seq<bv8>)
    requires forall i :: 0 <= i < |bits| ==> bits[i] == 0xff
    ensures FreeSet(bits) == {}
  {
    hide IsFree;
    forall f: nat | f < 8 * |bits|
      ensures !IsFree(bits, f)
    {
      FrameByte(f, f / 8);
      ByteFrames(bits, f / 8);
    }
  }

  predicate NoneFreeBelow(bits: seq<bv8>, n: nat)
    requires n <= 8 * |bits|
  {
    forall f: nat :: f < n ==> !IsFree(bits, f)
  }

  lemma {:induction false} NoneBelowStart(bits: seq<bv8>)
    ensures NoneFreeBelow(bits, 0)
  {
  }

  lemma {:induction false} NoneBelowByte(bits: seq<bv8>, i: nat)
    requires i < |bits| && bits[i] == 0xff && NoneFreeBelow(bits, 8 * i)
    ensures NoneFreeBelow(bits, 8 * (i + 1))
  {
    hide IsFree;
    ByteFrames(bits, i);
  }

  lemma {:induction false} FirstInByte(bits: seq<bv8>, i: nat, k: nat)
    requires i < |bits| && k < 8 && NoneFreeBelow(bits, 8 * i)
    requires !Bit(bits[i], k) && forall j :: 0 <= j < k ==> Bit(bits[i], j)
    ensures NoneFreeBelow(bits, i * 8 + k) && IsFree(bits, i * 8 + k)
  {
    FrameBit(bits, i, 8 * i + k);
    forall f: nat | f < 8 * i + k
      ensures !IsFree(bits, f)
    {
      if f >= 8 * i {
        FrameBit(bits, i, f);
      }
    }
  }

  // No n consecutive free frames start before s.
  ghost predicate NoRunBefore(free: set<nat>, s: nat, n: nat) {
    n > 0 ==> forall r: nat :: r < s ==> !(Run(r, n) <= free)
  }

  // A stretch of claimed frames ends every run that reaches it.
  lemma {:induction false} BlockedRuns(free: set<nat>, s: nat, first: nat, last: nat, n: nat)
    requires NoRunBefore(free, s, n) && s <= first <= last && first < s + n
    requires forall f :: first <= f <= last ==> f !in free
    ensures NoRunBefore(free, last + 1, n)
  {
    forall r: nat | s <= r <= last && n > 0
      ensures !(Run(r, n) <= free)
    {
      var f := if r < first then first else r;
      assert f in Run(r, n) && f !in free;
    }
  }

  lemma {:induction false} FirstRunIs(free: set<nat>, s: nat, n: nat, total: nat)
    requires FoundRun(free, s, n, total)
    ensures FirstRun(free, 0, n, total) == Some(s)
  {
    assert FirstRun(free, 0, n, total).Some?;
  }

  // pmm_alloc in terms of the lowest free frame.
  lemma {:induction false} AllocFound(s: Pmm, bits: seq<bv8>, f: nat)
    requires s.free == FreeSet(bits) && f < 8 * |bits| && NoneFreeBelow(bits, f) && IsFree(bits, f)
    ensures AllocNext(s) == if f < s.total then (Claim(s, f), f * FRAME_SIZE) else (s, 0)
  {
    if f < s.total {
      assert FirstFree(s.free, 0, s.total) == Some(f);
    } else {
      assert FirstFree(s.free, 0, s.total) == None;
    }
  }

  lemma {:induction false} AllocNone(s: Pmm, bits: seq<bv8>)
    requires s.free == FreeSet(bits) && NoneFreeBelow(bits, 8 * |bits|)
    ensures AllocNext(s) == (s, 0)
  {
    assert FirstFree(s.free, 0, s.total) == None;
  }

  // pmm_alloc_2mb in terms of the lowest wholly free block.
  lemma {:induction false} BlockFound(s: Pmm, b: nat)
    requires b < s.bytes / 64 && WhollyFree(s.free, b) && forall c :: 0 <= c < b ==> !WhollyFree(s.free, c)
    ensures Alloc2mbNext(s) == (s.(free := s.free - BlockFrames(b)), b * BLOCK_SIZE)
  {
    hide WhollyFree;
    assert FirstBlock(s.free, 0, s.bytes / 64) == Some(b);
  }

  lemma {:induction false} BlockNone(s: Pmm)
    requires forall c :: 0 <= c < s.bytes / 64 ==> !WhollyFree(s.free, c)
    ensures Alloc2mbNext(s) == (s, 0)
  {
    hide WhollyFree;
    assert FirstBlock(s.free, 0, s.bytes / 64) == None;
  }

  // The scan for n consecutive frames at frame i: the last found frames before i are free, from start
  // on, and no run starts before them.
  ghost predicate Scanned(free: set<nat>, found: nat, start: nat, i: nat, n: nat) {
    && (n > 0 ==> found < n)
    && (found > 0 ==> start + found == i && Run(start, found) <= free)
    && NoRunBefore(free, if found > 0 then start else i, n)
  }

  // n free frames from start on, below total, and no earlier start.
  ghost predicate FoundRun(free: set<nat>, start: nat, n: nat, total: nat) {
    n > 0 && start + n <= total && Run(start, n) <= free && NoRunBefore(free, start, n)
  }

  lemma {:induction false} ScanStart(free: set<nat>, n: nat)
    ensures Scanned(free, 0, 0, 0, n)
  {
  }

  // A free frame extends the run, or begins one.
  lemma {:induction false} ScanFree(free: set<nat>, found: nat, start: nat, i: nat, n: nat, total: nat)
    requires Scanned(free, found, start, i, n) && i in free && i < total
    ensures var s := if found == 0 then i else start;
      if found + 1 == n then FoundRun(free, s, n, total) else Scanned(free, found + 1, s, i + 1, n)
  {
    var s := if found == 0 then i else start;
    forall f | f in Run(s, found + 1)
      ensures f in free
    {
      assert f == i || InRun(f, s, found);
    }
  }

  // Claimed frames up to last end every run that reaches them.
  lemma {:induction false} ScanClaimed(free: set<nat>, found: nat, start: nat, i: nat, last: nat, n: nat)
    requires Scanned(free, found, start, i, n) && i <= last
    requires forall f :: i <= f <= last ==> f !in free
    ensures Scanned(free, 0, start, last + 1, n)
  {
    if n > 0 {
      BlockedRuns(free, if found > 0 then start else i, i, last, n);
    }
  }

  // At the end of the frames there is no run.
  lemma {:induction false} ScanNone(free: set<nat>, found: nat, start: nat, i: nat, n: nat, total: nat)
    requires Scanned(free, found, start, i, n) && i >= total
    requires found > 0 ==> i <= total
    ensures n > 0 ==> FirstRun(free, 0, n, total) == None
  {
  }

  lemma {:induction false} FullSkip(bits: seq<bv8>, i: nat)
    requires i % 8 == 0 && i / 8 < |bits| && bits[i / 8] == 0xff
    ensures forall f: nat :: i <= f <= i + 7 ==> f !in FreeSet(bits)
    ensures bits[i / 8] & Mask(i % 8) != 0
  {
    ByteFrames(bits, i / 8);
    FreeBit(bits, i);
  }

  class FrameAllocator {
    const bitmap: array<bv8>
    const totalFrames: nat
    const bitmapBase: nat   // physical address of the bitmap
    var freeFrames: nat

    ghost function State(): Pmm
      reads this, bitmap
    {
      Pmm.Pmm(FreeSet(bitmap[..]), totalFrames, bitmap.Length, freeFrames)
    }

    // bitmap_size is the byte count of total_frames bits, and fits an int: pmm_alloc_2mb
    // indexes the bitmap with one.
    ghost predicate Valid()
      reads this
    {
      && bitmap.Length == (totalFrames + 7) / 8
      && bitmap.Length < 0x8000_0000
      && freeFrames < UINT64
    }

    // get_highest_usable_addr.
    static method HighestUsable(entries: seq<MemEntry>) returns (end: nat)
      requires Sane(entries)
      ensures IsCeiling(entries, end)
    {
      end := 0;
      for i := 0 to |entries|
        invariant IsCeiling(entries[..i], end)
      {
        var ceiling := entries[i].base + entries[i].length;
        assert entries[..i + 1] == entries[..i] + [entries[i]];
        if (entries[i].kind == Usable || entries[i].kind == BootloaderReclaimable) && ceiling > end {
          assert Managed(entries[..i + 1][i]);
          end := ceiling;
        }
      }
      assert entries[..|entries|] == entries;
    }

    static method FindBitmapHome(entries: seq<MemEntry>, bytes: nat) returns (base: nat)
      ensures IsBitmapHome(entries, bytes, base)
    {
      base := 0;
      for i := 0 to |entries|
        invariant forall j :: 0 <= j < i ==> !Hosts(entries[j], bytes)
        invariant base == 0
      {
        var bigEnough := entries[i].length >= bytes;
        if entries[i].kind == Usable && bigEnough {
          assert Hosts(entries[i], bytes);
          base := entries[i].base;
          break;
        }
      }
    }

    // pmm_init: a bitmap of ones, then the managed entries are freed and the pages that
    // hold the bitmap are claimed again.
    constructor (entries: seq<MemEntry>)
      requires Sane(entries)
      requires forall end :: IsCeiling(entries, end) ==> BitmapBytes(FrameCount(end)) < 0x8000_0000
      ensures Valid() && fresh(bitmap)
      ensures exists end :: IsCeiling(entries, end) && totalFrames == FrameCount(end)
      ensures IsBitmapHome(entries, bitmap.Length, bitmapBase)
      ensures State().free == Covered(entries) - Touched(bitmapBase, bitmap.Length)
      ensures freeFrames == |State().free|
      ensures State().free <= Run(0, totalFrames)
      ensures forall f: nat :: f in State().free <==> InRam(entries, f) && !Reaches(bitmapBase, bitmap.Length, f)
      ensures LastFrame(entries, totalFrames) && FirstRoom(entries, (totalFrames + 7) / 8, bitmapBase)
    {
      hide IsFree, Mask, Bit, Covered, ReleaseManaged, IsCeiling, IsBitmapHome, ClaimRun, ReleaseRun, InRun, InRam, Reaches,
           LastFrame, FirstRoom;
      var end := HighestUsable(entries);
      var bitmapSize := BitmapBytes(FrameCount(end));
      var home := FindBitmapHome(entries, bitmapSize);
      totalFrames, bitmapBase := FrameCount(end), home;
      bitmap := new bv8[bitmapSize](_ => 0xff);
      freeFrames := 0;
      new;
      NoneFree(bitmap[..]);
      CoveredBelow(entries, end);
      ReleaseManagedFree(State(), entries);
      FreeManaged(entries, end);
      BitmapPagesBelow(entries, end, bitmapBase);
      ClaimRunFree(State(), bitmapBase / FRAME_SIZE, (bitmap.Length + FRAME_SIZE - 1) / FRAME_SIZE);
      ClaimRunCount(State(), bitmapBase / FRAME_SIZE, (bitmap.Length + FRAME_SIZE - 1) / FRAME_SIZE);
      ClaimRange(bitmapBase, bitmap.Length);
      InitialFreeIs(entries, bitmapBase, bitmap.Length);
      LastFrameIs(entries, end);
      FirstRoomIs(entries, bitmap.Length, bitmapBase);
    }

    // The loop of pmm_init over the entries it frees.
    method FreeManaged(entries: seq<MemEntry>, ghost end: nat)
      requires Valid() && IsCeiling(entries, end) && totalFrames == FrameCount(end)
      modifies this`freeFrames, bitmap
      ensures Valid() && State() == ReleaseManaged(old(State()), entries)
    {
      hide State;
      for i := 0 to |entries|
        invariant Valid() && State() == ReleaseManaged(old(State()), entries[..i])
      {
        var e := entries[i];
        assert entries[..i + 1][..i] == entries[..i];
        if e.kind == Usable || e.kind == BootloaderReclaimable {
          TouchedBelow(e.base, e.length, end);
          FreeRange(e.base, e.length);
        }
      }
      assert entries[..|entries|] == entries;
    }

    // The two address loops of pmm_init.
    method FreeRange(base: nat, length: nat)
      requires Valid() && Touched(base, length) <= Run(0, totalFrames)
      modifies this`freeFrames, bitmap
      ensures Valid()
      ensures State() == ReleaseRun(old(State()), base / FRAME_SIZE, (length + FRAME_SIZE - 1) / FRAME_SIZE)
    {
      hide State;
      var addr := base;
      ghost var k := 0;
      while addr < base + length
        invariant addr == base + 4096 * k && k <= (length + FRAME_SIZE - 1) / FRAME_SIZE
        invariant Valid()
        invariant State() == ReleaseRun(old(State()), base / FRAME_SIZE, k)
      {
        TouchedStep(base, length, k);
        FreeFrame(addr / FRAME_SIZE);
        addr, k := addr + FRAME_SIZE, k + 1;
      }
    }

    method ClaimRange(base: nat, length: nat)
      requires Valid() && Touched(base, length) <= Run(0, totalFrames)
      modifies this`freeFrames, bitmap
      ensures Valid()
      ensures State() == ClaimRun(old(State()), base / FRAME_SIZE, (length + FRAME_SIZE - 1) / FRAME_SIZE)
    {
      hide State;
      var addr := base;
      ghost var k := 0;
      while addr < base + length
        invariant addr == base + 4096 * k && k <= (length + FRAME_SIZE - 1) / FRAME_SIZE
        invariant Valid()
        invariant State() == ClaimRun(old(State()), base / FRAME_SIZE, k)
      {
        TouchedStep(base, length, k);
        ClaimFrame(addr / FRAME_SIZE);
        addr, k := addr + FRAME_SIZE, k + 1;
      }
    }

    method ClaimFrame(frame: nat)
      requires Valid() && frame < 8 * bitmap.Length
      modifies this`freeFrames, bitmap
      ensures Valid() && State() == Claim(old(State()), frame)
    {
      hide FreeSet, IsFree, Mask, Bit;
      var byteIndex, bitIndex := frame / 8, frame % 8;
      ghost var was := bitmap[..];
      FreeBit(was, frame);
      if bitmap[byteIndex] & Mask(bitIndex) == 0 {
        bitmap[byteIndex] := bitmap[byteIndex] | Mask(bitIndex);
        assert bitmap[..] == SetFrame(was, frame);
        SetFrameClaims(was, frame);
        freeFrames := Decrement(freeFrames);
      }
    }

    method FreeFrame(frame: nat)
      requires Valid() && frame < 8 * bitmap.Length
      modifies this`freeFrames, bitmap
      ensures Valid() && State() == Release(old(State()), frame)
    {
      hide FreeSet, IsFree, Mask, Bit;
      var byteIndex, bitIndex := frame / 8, frame % 8;
      ghost var was := bitmap[..];
      FreeBit(was, frame);
      if bitmap[byteIndex] & Mask(bitIndex) != 0 {
        bitmap[byteIndex] := bitmap[byteIndex] & !Mask(bitIndex);
        assert bitmap[..] == ClearFrame(was, frame);
        ClearFrameFrees(was, frame);
        freeFrames := Increment(freeFrames);
      }
    }

    method Alloc() returns (addr: nat)
      requires Valid()
      modifies this`freeFrames, bitmap
      ensures Valid()
      ensures (State(), addr) == AllocNext(old(State()))
      ensures FramesHandedOut(old(State()), State(), addr, 1)
    {
      hide AllocNext, FreeSet, Claim, IsFree, NoneFreeBelow, FramesHandedOut;
      AllocMeans(State());
      var byteIndex := 0;
      NoneBelowStart(bitmap[..]);
      while byteIndex < bitmap.Length && bitmap[byteIndex] == 0xff
        invariant byteIndex <= bitmap.Length
        invariant NoneFreeBelow(bitmap[..], 8 * byteIndex)
        modifies {}
      {
        NoneBelowByte(bitmap[..], byteIndex);
        byteIndex := byteIndex + 1;
      }
      if byteIndex >= bitmap.Length {
        AllocNone(State(), bitmap[..]);
        return 0;
      }
      var bitIndex := FirstClear(bitmap[byteIndex]);
      var frame := byteIndex * 8 + bitIndex;
      FirstInByte(bitmap[..], byteIndex, bitIndex);
      AllocFound(State(), bitmap[..], frame);
      if frame >= totalFrames {
        return 0;
      }
      ClaimFrame(frame);
      return frame * FRAME_SIZE;
    }

    // The loop over the bits of a byte that is not full.
    static method FirstClear(b: bv8) returns (bitIndex: nat)
      requires b != 0xff
      ensures bitIndex < 8 && !Bit(b, bitIndex) && forall k :: 0 <= k < bitIndex ==> Bit(b, k)
    {
      FullByte(b);
      bitIndex := 0;
      while b & Mask(bitIndex) != 0
        invariant bitIndex < 8
        invariant forall k :: 0 <= k < bitIndex ==> Bit(b, k)
        invariant exists k :: bitIndex <= k < 8 && !Bit(b, k)
        decreases 8 - bitIndex
      {
        assert Bit(b, bitIndex);
        bitIndex := bitIndex + 1;
      }
    }

    // A misaligned address is reported and ignored.
    method Free(addr: nat)
      requires Valid() && addr / FRAME_SIZE < 8 * bitmap.Length
      modifies this`freeFrames, bitmap
      ensures Valid() && State() == FreeNext(old(State()), addr)
      ensures if addr % 4096 == 0 then Returned(old(State()), State(), addr / 4096, 1) else State() == old(State())
    {
      FreeMeans(State(), addr);
      if addr % FRAME_SIZE != 0 {
        return;
      }
      FreeFrame(addr / FRAME_SIZE);
    }

    method Alloc2mb() returns (addr: nat)
      requires Valid()
      modifies bitmap
      ensures Valid()
      ensures (State(), addr) == Alloc2mbNext(old(State()))
      ensures BlockHandedOut(old(State()), State(), addr)
    {
      hide Alloc2mbNext, FreeSet, WhollyFree, BlockFrames, BlockHandedOut;
      BlockMeans(State());
      var byteIndex := 0;
      ghost var b := 0;
      while byteIndex + 64 <= bitmap.Length
        invariant byteIndex == 64 * b
        invariant forall c :: 0 <= c < b ==> !WhollyFree(State().free, c)
        modifies {}
      {
        var isValid := true;
        for entry := 0 to 64
          invariant isValid && forall i :: byteIndex <= i < byteIndex + entry ==> bitmap[i] == 0
        {
          if bitmap[byteIndex + entry] != 0 {
            isValid := false;
            break;
          }
        }
        BlockBytes(bitmap[..], b);
        if isValid {
          break;
        }
        byteIndex, b := byteIndex + 64, b + 1;
      }
      if byteIndex + 64 > bitmap.Length {
        BlockNone(State());
        return 0;
      }
      BlockBytes(bitmap[..], b);
      BlockFound(State(), b);
      ghost var was := bitmap[..];
      for i := byteIndex to byteIndex + 64
        invariant forall j :: 0 <= j < bitmap.Length ==>
          bitmap[j] == if byteIndex <= j < i then 0xff else was[j]
      {
        bitmap[i] := 0xff;
      }
      FillEffect(was, bitmap[..], b, 0xff);
      return byteIndex * 8 * FRAME_SIZE;
    }

    // A misaligned address is reported and ignored, one past the bitmap only ignored.
    method Free2mb(addr: nat)
      requires Valid()
      modifies bitmap
      ensures Valid() && State() == Free2mbNext(old(State()), addr)
      ensures if addr % 0x20_0000 == 0 && addr / 0x8000 + 64 <= bitmap.Length then Returned(old(State()), State(), addr / 4096, 512)
        else State() == old(State())
    {
      FreeBlockMeans(State(), addr);
      if addr % BLOCK_SIZE != 0 {
        return;
      }
      var byteIndex := addr / FRAME_SIZE / 8;
      if byteIndex + 64 > bitmap.Length {
        return;
      }
      ghost var was := bitmap[..];
      for i := byteIndex to byteIndex + 64
        invariant forall j :: 0 <= j < bitmap.Length ==>
          bitmap[j] == if byteIndex <= j < i then 0 else was[j]
      {
        bitmap[i] := 0;
      }
      assert byteIndex == 64 * (addr / BLOCK_SIZE);
      FillEffect(was, bitmap[..], addr / BLOCK_SIZE, 0);
    }

    // First fit over single bits, skipping a byte at a time where all eight are set.
    method AllocContiguous(numFrames: nat) returns (addr: nat)
      requires Valid()
      modifies this`freeFrames, bitmap
      ensures Valid()
      ensures (State(), addr) == ContiguousNext(old(State()), numFrames)
      ensures if numFrames > 0 then FramesHandedOut(old(State()), State(), addr, numFrames) else State() == old(State()) && addr == 0
    {
      hide FreeSet, IsFree, ClaimRun, Scanned, FirstRun, FoundRun, FramesHandedOut;
      if numFrames > 0 {
        ContiguousMeans(State(), numFrames);
      }
      var foundFrames: nat, startFrame: nat, i: nat := 0, 0, 0;
      ScanStart(State().free, numFrames);
      while i < totalFrames
        invariant Scanned(State().free, foundFrames, startFrame, i, numFrames)
        invariant foundFrames > 0 ==> i <= totalFrames
        invariant State() == old(State()) && Valid()
      {
        var hit;
        hit, foundFrames, startFrame, i := ScanFrame(foundFrames, startFrame, i, numFrames);
        if hit {
          FirstRunIs(State().free, startFrame, numFrames, totalFrames);
          ClaimFrames(startFrame, numFrames);
          return startFrame * FRAME_SIZE;
        }
      }
      ScanNone(State().free, foundFrames, startFrame, i, numFrames, totalFrames);
      return 0;
    }

    // The body of that loop.
    method ScanFrame(foundFrames: nat, startFrame: nat, frame: nat, numFrames: nat)
      returns (hit: bool, found: nat, start: nat, i: nat)
      requires Valid() && frame < totalFrames && Scanned(State().free, foundFrames, startFrame, frame, numFrames)
      ensures hit ==> found == numFrames > 0 && FoundRun(State().free, start, numFrames, totalFrames)
      ensures !hit ==> Scanned(State().free, found, start, i, numFrames) && frame < i && (found > 0 ==> i <= totalFrames)
    {
      hide FreeSet, IsFree, Bit, Mask, Scanned, FoundRun, BitmapBytes;
      hit, found, start, i := false, foundFrames, startFrame, frame;
      ghost var bits, free := bitmap[..], State().free;
      var byteIndex, bitIndex := i / 8, i % 8;
      FreeBit(bits, frame);
      if bitIndex == 0 && bitmap[byteIndex] == 0xff {
        FullSkip(bits, frame);
        found := 0;
        i := i + 7;
      }
      if bitmap[byteIndex] & Mask(bitIndex) == 0 {
        ScanFree(free, foundFrames, startFrame, frame, numFrames, totalFrames);
        if found == 0 {
          start := i;
        }
        found := found + 1;
        if found == numFrames {
          return true, found, start, i;
        }
      } else {
        ScanClaimed(free, foundFrames, startFrame, frame, i, numFrames);
        found := 0;
      }
      i := i + 1;
    }

    // The claiming loop of AllocContiguous.
    method ClaimFrames(startFrame: nat, numFrames: nat)
      requires Valid() && startFrame + numFrames <= 8 * bitmap.Length
      modifies this`freeFrames, bitmap
      ensures Valid() && State() == ClaimRun(old(State()), startFrame, numFrames)
    {
      hide State;
      for j := 0 to numFrames
        invariant Valid() && State() == ClaimRun(old(State()), startFrame, j)
      {
        ClaimFrame(startFrame + j);
      }
    }
  }
}
