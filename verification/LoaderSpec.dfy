/** The loader as a state machine driven by frame arrivals and its own steps. */
module LoaderSpec {
  import opened Bytes
  import opened Wrappers
  import opened NetworkSpec

  const MAGIC_NUMBER: nat := 0x474F_2121
  const UINT32: nat := 0x1_0000_0000

  // unlock, poll_payload_size, then waiting for memory, then poll_payload.
  datatype Phase = Unlocking(magic: nat) | Sizing(i: nat, acc: nat) | Granted(size: nat) | Loading(size: nat) | Loaded(size: nat)

  datatype Sys = Sys(rx: Rx, phase: Phase)

  // A frame arrives; the loader runs to its next read or test; the kernel hands over memory.
  datatype Event = Arrive(data: Frame) | Step | Grant(mem: seq<byte>)

  // The magic shifted left by a byte, and the byte or-ed in, on 32 bits.
  function ShiftIn(magic: nat, b: byte): nat {
    (magic * 256 + b as nat) % UINT32
  }

  // The size with byte i, zero so far, or-ed in.
  function AddByte(size: nat, b: byte, i: nat): nat {
    size + b as nat * Pow256(i)
  }

  // Or-ing into zero bits adds: a byte into the magic after the shift, and a byte into the size
  // above the i bytes already there, which it meets in no bit.
  lemma {:induction false} OrIntoMagic(magic: bv32, b: bv32)
    requires b <= 0xff
    ensures (magic << 8) | b == (magic << 8) + b
  {
  }

  lemma {:induction false} OrIsSum(x: bv64, y: bv64)
    requires x & y == 0
    ensures x | y == x + y
  {
  }

  lemma {:induction false} BytesApart(size: bv64, b: bv64)
    requires b <= 0xff
    ensures size < 0x100 ==> size & (b << 8) == 0
    ensures size < 0x1_0000 ==> size & (b << 16) == 0
    ensures size < 0x100_0000 ==> size & (b << 24) == 0
    ensures size < 0x1_0000_0000 ==> size & (b << 32) == 0
    ensures size < 0x100_0000_0000 ==> size & (b << 40) == 0
    ensures size < 0x1_0000_0000_0000 ==> size & (b << 48) == 0
    ensures size < 0x100_0000_0000_0000 ==> size & (b << 56) == 0
  {
  }

  // What the loader does with one byte.
  function TakeByte(phase: Phase, b: byte): Phase {
    match phase
    case Unlocking(m) =>
      var m' := ShiftIn(m, b);
      if m' == MAGIC_NUMBER then Sizing(0, 0) else Unlocking(m')
    case Sizing(i, acc) =>
      var acc' := AddByte(acc, b, i);
      if i + 1 == 8 then Granted(acc') else Sizing(i + 1, acc')
    case _ => phase
  }

  predicate Reads(phase: Phase) {
    phase.Unlocking? || phase.Sizing?
  }

  function Apply(s: Sys, e: Event): Sys
    requires Sized(s.rx)
    ensures Sized(Apply(s, e).rx)
  {
    match e
    case Arrive(data) => s.(rx := ReceiveFrame(s.rx, data))
    case Grant(mem) =>
      if s.phase.Granted? && |mem| >= s.phase.size then Sys(SetDest(s.rx, mem, s.phase.size), Loading(s.phase.size)) else s
    case Step =>
      if Reads(s.phase) then
        if HasByte(s.rx) then
          var (rx', b) := ReadByte(s.rx);
          Sys(rx', TakeByte(s.phase, b))
        else s
      else if s.phase.Loading? && s.rx.received >= s.phase.size then s.(phase := Loaded(s.phase.size))
      else s
  }

  function RunEvents(s: Sys, events: seq<Event>): Sys
    requires Sized(s.rx)
    ensures Sized(RunEvents(s, events).rx)
    decreases |events|
  {
    if events == [] then s else RunEvents(Apply(s, events[0]), events[1..])
  }

  lemma {:induction false} RunSplit(s: Sys, a: seq<Event>, b: seq<Event>)
    requires Sized(s.rx)
    ensures RunEvents(s, a + b) == RunEvents(RunEvents(s, a), b)
    decreases |a|
  {
    if a == [] {
      assert a + b == b;
    } else {
      assert (a + b)[0] == a[0] && (a + b)[1..] == a[1..] + b;
      RunSplit(Apply(s, a[0]), a[1..], b);
    }
  }

  // ---- the loops as functions of the frames that come -------------------------------------------

  // ok is false where the source would wait for ever, or read zeros for ever. value: the magic or the size.
  datatype Outcome = Outcome(ok: bool, value: nat, rx: Rx, rest: Line)

  // unlock
  function UnlockRun(s: Rx, magic: nat, line: Line): (o: Outcome)
    requires Sized(s)
    ensures Sized(o.rx)
    decreases |line.frames|, if s.hdrDone then 0 else HEADER_BYTES - s.hdrRead
  {
    if s.hdrDone then Outcome(false, magic, s, line)
    else
      var r := ReadFrom(s, line);
      if !r.ok then Outcome(false, magic, r.rx, r.rest)
      else
        var m := ShiftIn(magic, r.b);
        ReadTakes(s, line);
        if m == MAGIC_NUMBER then Outcome(true, m, r.rx, r.rest) else UnlockRun(r.rx, m, r.rest)
  }

  lemma {:induction false} UnlockDone(s: Rx, magic: nat, line: Line)
    requires Sized(s) && s.hdrDone
    ensures UnlockRun(s, magic, line) == Outcome(false, magic, s, line)
  {
  }

  lemma {:induction false} UnlockUnfold(s: Rx, magic: nat, line: Line)
    requires Sized(s) && !s.hdrDone
    ensures var r := ReadFrom(s, line);
      UnlockRun(s, magic, line) ==
        if !r.ok then Outcome(false, magic, r.rx, r.rest)
        else if ShiftIn(magic, r.b) == MAGIC_NUMBER then Outcome(true, ShiftIn(magic, r.b), r.rx, r.rest)
        else UnlockRun(r.rx, ShiftIn(magic, r.b), r.rest)
  {
    hide ReadFrom;
  }

  // poll_payload_size, with i bytes read.
  function SizeRun(s: Rx, i: nat, size: nat, line: Line): (o: Outcome)
    requires Sized(s) && i <= 8
    ensures Sized(o.rx)
    decreases 8 - i
  {
    if i == 8 then Outcome(true, size, s, line)
    else
      var r := ReadFrom(s, line);
      if !r.ok then Outcome(false, size, r.rx, r.rest)
      else SizeRun(r.rx, i + 1, AddByte(size, r.b, i), r.rest)
  }

  lemma {:induction false} SizeUnfold(s: Rx, i: nat, size: nat, line: Line)
    requires Sized(s) && i < 8
    ensures var r := ReadFrom(s, line);
      SizeRun(s, i, size, line) ==
        if !r.ok then Outcome(false, size, r.rx, r.rest)
        else SizeRun(r.rx, i + 1, AddByte(size, r.b, i), r.rest)
  {
    hide ReadFrom, AddByte;
  }

  lemma {:induction false} SizeDone(s: Rx, size: nat, line: Line)
    requires Sized(s)
    ensures SizeRun(s, 8, size, line) == Outcome(true, size, s, line)
  {
  }

  // The wait of poll_payload.
  function LoadRun(s: Rx, size: nat, line: Line): (o: Outcome)
    requires Sized(s)
    ensures Sized(o.rx)
    decreases |line.frames|
  {
    if s.received >= size then Outcome(true, size, s, line)
    else if line.frames == [] then Outcome(false, size, s, line)
    else LoadRun(ReceiveFrame(s, line.frames[0]), size, line.(frames := line.frames[1..]))
  }

  lemma {:induction false} LoadUnfold(s: Rx, size: nat, line: Line)
    requires Sized(s)
    ensures LoadRun(s, size, line) ==
      if s.received >= size then Outcome(true, size, s, line)
      else if line.frames == [] then Outcome(false, size, s, line)
      else LoadRun(ReceiveFrame(s, line.frames[0]), size, line.(frames := line.frames[1..]))
  {
    hide ReceiveFrame;
  }
}
