/** The boot loader's memory map and the frames its entries stand for. */
module MemoryMap {
  import opened PmmSpec

  datatype Kind = Usable | Reserved | AcpiReclaimable | AcpiNvs | BadMemory
                | BootloaderReclaimable | KernelAndModules | Framebuffer

  datatype MemEntry = MemEntry(base: nat, length: nat, kind: Kind)

  // Entries the allocator takes frames from.
  predicate Managed(e: MemEntry) {
    e.kind == Usable || e.kind == BootloaderReclaimable
  }

  // base + length does not wrap.
  predicate Sane(entries: seq<MemEntry>) {
    forall i :: 0 <= i < |entries| ==> entries[i].base + entries[i].length < UINT64
  }

  // The frames a loop from base in steps of 4096 below base + length visits.
  function Touched(base: nat, length: nat): set<nat> {
    Run(base / FRAME_SIZE, (length + FRAME_SIZE - 1) / FRAME_SIZE)
  }

  // end is the largest base + length of a managed entry, 0 when there is none.
  predicate IsCeiling(entries: seq<MemEntry>, end: nat) {
    && (forall i :: 0 <= i < |entries| && Managed(entries[i]) ==> entries[i].base + entries[i].length <= end)
    && (end == 0 || exists i :: 0 <= i < |entries| && Managed(entries[i]) && entries[i].base + entries[i].length == end)
  }

  predicate Hosts(e: MemEntry, bytes: nat) {
    e.kind == Usable && e.length >= bytes
  }

  // base is where the bitmap goes: the base of the first usable entry with room, or 0.
  predicate IsBitmapHome(entries: seq<MemEntry>, bytes: nat, base: nat) {
    if exists i :: 0 <= i < |entries| && Hosts(entries[i], bytes) then
      exists i :: 0 <= i < |entries| && Hosts(entries[i], bytes) && base == entries[i].base
        && forall j :: 0 <= j < i ==> !Hosts(entries[j], bytes)
    else
      base == 0
  }

  // All frames of managed entries.
  function Covered(entries: seq<MemEntry>): set<nat> {
    if entries == [] then {}
    else Covered(entries[..|entries| - 1]) + EntryFrames(entries[|entries| - 1])
  }

  function EntryFrames(e: MemEntry): set<nat> {
    if Managed(e) then Touched(e.base, e.length) else {}
  }

  lemma {:induction false} CoveredMember(entries: seq<MemEntry>, f: nat)
    ensures f in Covered(entries) <==> exists i :: 0 <= i < |entries| && f in EntryFrames(entries[i])
  {
    if entries != [] {
      var front := entries[..|entries| - 1];
      CoveredMember(front, f);
      assert entries == front + [entries[|entries| - 1]];
      assert forall i :: 0 <= i < |front| ==> entries[i] == front[i];
    }
  }

  // ---- the same in numbers -------------------------------------------------------------------------

  // One of the addresses base, base + 4096, .. below base + length lies in frame f.
  predicate Reaches(base: nat, length: nat, f: nat) {
    base / 4096 <= f && 4096 * (f - base / 4096) < length
  }

  lemma {:induction false} TouchedIs(base: nat, length: nat, f: nat)
    ensures f in Touched(base, length) <==> Reaches(base, length, f)
  {
  }

  // An entry whose memory the kernel may use.
  predicate Ram(e: MemEntry) {
    e.kind == Usable || e.kind == BootloaderReclaimable
  }

  predicate InRam(entries: seq<MemEntry>, f: nat) {
    exists i :: 0 <= i < |entries| && Ram(entries[i]) && Reaches(entries[i].base, entries[i].length, f)
  }

  lemma {:induction false} CoveredIs(entries: seq<MemEntry>, f: nat)
    ensures f in Covered(entries) <==> InRam(entries, f)
  {
    hide Touched, Reaches;
    CoveredMember(entries, f);
    forall i | 0 <= i < |entries|
      ensures f in Touched(entries[i].base, entries[i].length) <==> Reaches(entries[i].base, entries[i].length, f)
    {
      TouchedIs(entries[i].base, entries[i].length, f);
    }
  }

  // What pmm_init leaves free: the frames of usable and reclaimable entries, but for those from home
  // that hold the bitmap's bytes.
  lemma {:induction false} InitialFreeIs(entries: seq<MemEntry>, home: nat, bytes: nat)
    ensures forall f: nat :: f in Covered(entries) - Touched(home, bytes) <==> InRam(entries, f) && !Reaches(home, bytes, f)
  {
    hide Touched, Reaches, Covered, InRam;
    forall f: nat
      ensures f in Covered(entries) - Touched(home, bytes) <==> InRam(entries, f) && !Reaches(home, bytes, f)
    {
      CoveredIs(entries, f);
      TouchedIs(home, bytes, f);
    }
  }

  // No such entry ends past this many frames, and one ends in the last of them.
  predicate LastFrame(entries: seq<MemEntry>, frames: nat) {
    && (forall i :: 0 <= i < |entries| && Ram(entries[i]) ==> entries[i].base + entries[i].length <= 4096 * frames)
    && (frames == 0 || exists i :: 0 <= i < |entries| && Ram(entries[i]) && entries[i].base + entries[i].length > 4096 * (frames - 1))
  }

  lemma {:induction false} LastFrameIs(entries: seq<MemEntry>, end: nat)
    requires IsCeiling(entries, end)
    ensures LastFrame(entries, FrameCount(end))
  {
  }

  // The first usable entry with room for these bytes begins at base, or there is none and base is 0.
  predicate FirstRoom(entries: seq<MemEntry>, bytes: nat, base: nat) {
    if forall i :: 0 <= i < |entries| && entries[i].kind == Usable ==> entries[i].length < bytes then
      base == 0
    else
      exists i :: 0 <= i < |entries| && entries[i].kind == Usable && entries[i].length >= bytes && base == entries[i].base
        && forall j :: 0 <= j < i && entries[j].kind == Usable ==> entries[j].length < bytes
  }

  lemma {:induction false} FirstRoomIs(entries: seq<MemEntry>, bytes: nat, base: nat)
    requires IsBitmapHome(entries, bytes, base)
    ensures FirstRoom(entries, bytes, base)
  {
    assert forall i :: 0 <= i < |entries| ==> (Hosts(entries[i], bytes) <==> entries[i].kind == Usable && entries[i].length >= bytes);
  }

  // ---- the loops of pmm_init -------------------------------------------------------------------------

  lemma {:induction false} TouchedStep(base: nat, length: nat, k: nat)
    requires 4096 * k < length
    ensures (base + 4096 * k) / FRAME_SIZE == base / FRAME_SIZE + k
    ensures (base + 4096 * k) / FRAME_SIZE in Touched(base, length)
    ensures k + 1 <= (length + FRAME_SIZE - 1) / FRAME_SIZE
  {
  }

  // total_frames and bitmap_size for a given highest managed address.
  function FrameCount(end: nat): nat {
    (end + FRAME_SIZE - 1) / FRAME_SIZE
  }

  function BitmapBytes(frames: nat): nat {
    (frames + 7) / 8
  }

  lemma {:induction false} TouchedBelow(base: nat, length: nat, end: nat)
    requires base + length <= end
    ensures Touched(base, length) <= Run(0, FrameCount(end))
  {
    forall f: nat | f in Touched(base, length)
      ensures f < FrameCount(end)
    {
      assert 4096 * (f - base / FRAME_SIZE) < length;
      assert 4096 * f < end;
    }
  }

  lemma {:induction false} CoveredBelow(entries: seq<MemEntry>, end: nat)
    requires IsCeiling(entries, end)
    ensures Covered(entries) <= Run(0, FrameCount(end))
  {
    forall f | f in Covered(entries)
      ensures f in Run(0, FrameCount(end))
    {
      CoveredMember(entries, f);
      var i :| 0 <= i < |entries| && f in EntryFrames(entries[i]);
      TouchedBelow(entries[i].base, entries[i].length, end);
    }
  }

  // Every index the claiming of the bitmap's own pages uses lies below the frame count.
  lemma {:induction false} BitmapPagesBelow(entries: seq<MemEntry>, end: nat, base: nat)
    requires IsCeiling(entries, end) && IsBitmapHome(entries, BitmapBytes(FrameCount(end)), base)
    ensures Touched(base, BitmapBytes(FrameCount(end))) <= Run(0, FrameCount(end))
  {
    var bytes := BitmapBytes(FrameCount(end));
    if exists i :: 0 <= i < |entries| && Hosts(entries[i], bytes) {
      var i :| 0 <= i < |entries| && Hosts(entries[i], bytes) && base == entries[i].base;
      TouchedBelow(base, bytes, end);
    } else {
      assert bytes <= end;
      TouchedBelow(base, bytes, end);
    }
  }

  function ReleaseEntry(s: Pmm, e: MemEntry): Pmm {
    if Managed(e) then ReleaseRun(s, e.base / FRAME_SIZE, (e.length + FRAME_SIZE - 1) / FRAME_SIZE) else s
  }

  // The loop of pmm_init over the entries.
  function ReleaseManaged(s: Pmm, entries: seq<MemEntry>): Pmm {
    if entries == [] then s
    else ReleaseEntry(ReleaseManaged(s, entries[..|entries| - 1]), entries[|entries| - 1])
  }

  lemma {:induction false} ReleaseEntryFree(s: Pmm, e: MemEntry)
    requires CountExact(s) && s.total < UINT64
    requires s.free <= Run(0, s.total) && EntryFrames(e) <= Run(0, s.total)
    ensures ReleaseEntry(s, e).free == s.free + EntryFrames(e)
    ensures CountExact(ReleaseEntry(s, e))
    ensures ReleaseEntry(s, e).total == s.total && ReleaseEntry(s, e).bytes == s.bytes
  {
    if Managed(e) {
      ReleaseRunFree(s, e.base / FRAME_SIZE, (e.length + FRAME_SIZE - 1) / FRAME_SIZE);
      ReleaseRunCount(s, e.base / FRAME_SIZE, (e.length + FRAME_SIZE - 1) / FRAME_SIZE, s.total);
    }
  }

  lemma {:induction false} ReleaseManagedFree(s: Pmm, entries: seq<MemEntry>)
    requires s.free == {} && CountExact(s)
    requires Covered(entries) <= Run(0, s.total) && s.total < UINT64
    ensures ReleaseManaged(s, entries).free == Covered(entries)
    ensures CountExact(ReleaseManaged(s, entries))
    ensures ReleaseManaged(s, entries).total == s.total && ReleaseManaged(s, entries).bytes == s.bytes
  {
    if entries != [] {
      var e, front := entries[|entries| - 1], entries[..|entries| - 1];
      ReleaseManagedFree(s, front);
      ReleaseEntryFree(ReleaseManaged(s, front), e);
    }
  }
}
