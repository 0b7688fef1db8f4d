/** What the receiver keeps in every interleaving of frames, reads, resets and new destinations. */
module NetworkProofs {
  import opened Bytes
  import opened Numbers
  import opened Wrappers
  import opened NetworkSpec

  datatype NetEvent = FrameIn(data: Frame) | Read | Reset | Dest(mem: seq<byte>, expected: nat)

  // The receiver, with the data-mode payloads since the last SetDest in order, and what the
  // destination held then.
  datatype Trace = Trace(rx: Rx, log: seq<byte>, start: seq<byte>)

  // Callers give a destination with room for what they expect.
  predicate Allowed(e: NetEvent) {
    e.Dest? ==> e.expected <= |e.mem|
  }

  ghost predicate TraceInv(t: Trace) {
    && Sized(t.rx)
    && t.rx.received <= t.rx.expected
    && (!t.rx.hdrDone ==> t.rx.hdrRead < HEADER_BYTES)
    && (t.rx.hdrRead <= t.rx.hdrLen <= HEADER_FRAME_SIZE)
    && match t.rx.dest
       case None => t.rx.received == 0 == t.rx.expected
       case Some(mem) =>
         && |mem| == |t.start|
         && t.rx.received == Min(t.rx.expected, |t.log|)
         && mem == t.log[..t.rx.received] + t.start[t.rx.received..]
  }

  function ApplyNet(t: Trace, e: NetEvent): Trace
    requires Sized(t.rx)
  {
    match e
    case FrameIn(data) =>
      Trace(ReceiveFrame(t.rx, data), if Matches(data) && t.rx.hdrDone && t.rx.dest.Some? then t.log + Payload(data) else t.log, t.start)
    case Read =>
      if HasByte(t.rx) then t.(rx := ReadByte(t.rx).0) else t
    case Reset => t.(rx := ResetHeader(t.rx))
    case Dest(mem, n) => Trace(SetDest(t.rx, mem, n), [], mem)
  }

  // Appending to a destination that holds the first r bytes of the log, over its start.
  lemma {:induction false} AppendKeeps(mem: seq<byte>, start: seq<byte>, log: seq<byte>, payload: seq<byte>, r: nat, n: nat)
    requires |mem| == |start| && r + n <= |mem| && r <= |log| && n <= |payload| && (n > 0 ==> r == |log|)
    requires mem == log[..r] + start[r..]
    ensures (if n == 0 then mem else Overwrite(mem, r, payload[..n])) == (log + payload)[..r + n] + start[r + n..]
  {
    assert (log + payload)[..r + n] == log[..r] + payload[..n];
    if n > 0 {
      assert Overwrite(mem, r, payload[..n]) == log[..r] + payload[..n] + start[r + n..];
    }
  }

  lemma {:induction false} FrameKeeps(t: Trace, data: Frame)
    requires TraceInv(t)
    ensures TraceInv(ApplyNet(t, FrameIn(data)))
  {
    hide Payload;
    if Matches(data) && t.rx.hdrDone && t.rx.dest.Some? {
      var payload := Payload(data);
      AppendKeeps(t.rx.dest.value, t.start, t.log, payload, t.rx.received, Wanted(t.rx, payload));
    }
  }

  lemma {:induction false} NetStep(t: Trace, e: NetEvent)
    requires TraceInv(t) && Allowed(e)
    ensures TraceInv(ApplyNet(t, e))
  {
    match e
    case FrameIn(data) => FrameKeeps(t, data);
    case Read =>
    case Reset =>
    case Dest(mem, n) => assert mem == [][..0] + mem[0..];
  }

  function RunNet(t: Trace, events: seq<NetEvent>): Trace
    requires TraceInv(t) && forall i :: 0 <= i < |events| ==> Allowed(events[i])
    decreases |events|
  {
    if events == [] then t
    else
      NetStep(t, events[0]);
      RunNet(ApplyNet(t, events[0]), events[1..])
  }

  // In every interleaving: no more is received than expected, the destination is the payloads
  // in order cut at that, followed by what it held before, and header reads stay below 12.
  lemma {:induction false} RunNetSafe(t: Trace, events: seq<NetEvent>)
    requires TraceInv(t) && forall i :: 0 <= i < |events| ==> Allowed(events[i])
    ensures TraceInv(RunNet(t, events))
    decreases |events|
  {
    if events != [] {
      NetStep(t, events[0]);
      RunNetSafe(ApplyNet(t, events[0]), events[1..]);
    }
  }
}
