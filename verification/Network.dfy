/** The receive state of network.c and the methods that change it. */
module Network {
  import opened Bytes
  import opened Numbers
  import opened Wrappers
  import opened NetworkSpec

  class Receiver {
    var dest: array?<byte>
    var expected: nat
    var received: nat
    var ready: bool
    const hdrBuf: array<byte>
    var hdrLen: nat
    var hdrRead: nat
    var hdrDone: bool

    ghost function State(): Rx
      reads this, hdrBuf, dest
    {
      Rx(if dest == null then None else Some(dest[..]), expected, received, ready, hdrBuf[..], hdrLen, hdrRead, hdrDone)
    }

    ghost predicate Valid()
      reads this, hdrBuf, dest
    {
      Sized(State()) && dest != hdrBuf
    }

    // The static initialisers.
    constructor ()
      ensures Valid() && fresh(hdrBuf) && hdrBuf.Length == 16
      ensures dest == null && expected == 0 && received == 0 && !ready && hdrLen == 0 && hdrRead == 0 && !hdrDone
    {
      dest := null;
      expected, received := 0, 0;
      ready, hdrDone := false, false;
      hdrLen, hdrRead := 0, 0;
      hdrBuf := new byte[HEADER_FRAME_SIZE](_ => 0);
    }

    method SetDest(mem: array<byte>, expectedBytes: nat)
      requires Valid() && mem != hdrBuf && expectedBytes <= mem.Length
      modifies this
      ensures Valid() && dest == mem && State() == NetworkSpec.SetDest(old(State()), mem[..], expectedBytes)
    {
      dest := mem;
      expected := expectedBytes;
      received := 0;
    }

    method ResetHeader()
      requires Valid()
      modifies this
      ensures Valid() && dest == old(dest) && State() == NetworkSpec.ResetHeader(old(State()))
    {
      hdrDone := false;
      hdrLen := 0;
      hdrRead := 0;
      ready := false;
    }

    method ReceiveFrame(data: Frame)
      requires Valid()
      modifies this, hdrBuf, dest
      ensures Valid() && dest == old(dest) && State() == NetworkSpec.ReceiveFrame(old(State()), data)
    {
      if |data| <= ETH_HEADER_SIZE {
        return;
      }
      var etherType := data[12] as nat * 256 + data[13] as nat;
      if etherType != ETHERTYPE_CUSTOM {
        return;
      }
      var payload := data[ETH_HEADER_SIZE..];
      if !hdrDone {
        FillHeader(payload);
        return;
      }
      if dest == null {
        return;
      }
      Append(payload);
    }

    // First frame: into the header buffer, cut to its size.
    method FillHeader(payload: seq<byte>)
      requires Valid()
      modifies this, hdrBuf
      ensures Valid() && dest == old(dest)
      ensures var n := Min(|payload|, HEADER_FRAME_SIZE);
        State() == old(State()).(hdr := Overwrite(old(hdrBuf[..]), 0, payload[..n]), hdrLen := n, hdrRead := 0, ready := true)
    {
      hide Overwrite;
      var n := |payload|;
      if n > HEADER_FRAME_SIZE {
        n := HEADER_FRAME_SIZE;
      }
      CopyHeader(payload, n);
      hdrLen := n;
      hdrRead := 0;
      ready := true;
    }

    // The copying loop of FillHeader.
    method CopyHeader(payload: seq<byte>, n: nat)
      requires n <= |payload| && n <= hdrBuf.Length
      modifies hdrBuf
      ensures hdrBuf[..] == Overwrite(old(hdrBuf[..]), 0, payload[..n])
    {
      for i := 0 to n
        invariant forall k :: 0 <= k < hdrBuf.Length ==> hdrBuf[k] == if k < i then payload[k] else old(hdrBuf[k])
      {
        hdrBuf[i] := payload[i];
      }
    }

    // Later frames: appended to the destination until it is full.
    method Append(payload: seq<byte>)
      requires Valid() && dest != null
      modifies this`received, dest
      ensures Valid() && dest == old(dest)
      ensures var n := Wanted(old(State()), payload);
        && received == old(received) + n
        && dest[..] == if n == 0 then old(dest[..]) else Overwrite(old(dest[..]), old(received), payload[..n])
      ensures hdrBuf[..] == old(hdrBuf[..])
    {
      ghost var was, start := dest[..], received;
      for i := 0 to |payload|
        invariant dest == old(dest) && dest[..] == Appended(was, start, payload[..i])
        invariant received == start + i && (i > 0 ==> received <= expected)
        invariant hdrBuf[..] == old(hdrBuf[..])
      {
        if received >= expected {
          break;
        }
        dest[received] := payload[i];
        AppendOne(was, start, payload, i);
        received := received + 1;
      }
    }

    // Frames that come in one after another.
    method Receive(frames: seq<Frame>)
      requires Valid()
      modifies this, hdrBuf, dest
      ensures Valid() && dest == old(dest) && State() == DeliverAll(old(State()), frames)
    {
      hide NetworkSpec.ReceiveFrame;
      var rest := frames;
      while rest != []
        invariant Valid() && dest == old(dest)
        invariant DeliverAll(State(), rest) == DeliverAll(old(State()), frames)
        decreases |rest|
      {
        ReceiveFrame(rest[0]);
        rest := rest[1..];
      }
    }

    // Those that come while nobody waits for one.
    method Interrupts(line: Line) returns (rest: Line)
      requires Valid()
      modifies this, hdrBuf, dest
      ensures Valid() && dest == old(dest) && (State(), rest) == Pause(old(State()), line)
    {
      Receive(line.frames[..Arriving(line)]);
      rest := AfterPause(line);
    }

    // read_ethernet, after the frames that have come since the last read. While it blocks, further
    // frames come in one by one; the rest are still to come when it returns. It blocks for good, ok
    // false, when they run out.
    method ReadEthernet(line: Line) returns (ok: bool, b: byte, rest: Line)
      requires Valid()
      modifies this, hdrBuf, dest
      ensures Valid() && dest == old(dest)
      ensures Reading(ok, b, State(), rest) == ReadFrom(old(State()), line)
    {
      hide NetworkSpec.ReceiveFrame, DeliverAll;
      var left := Interrupts(line);
      var frames := left.frames;
      b := 0;
      ghost var paused := State();
      while if hdrDone then received == 0 else !ready || hdrRead >= hdrLen
        invariant Valid() && dest == old(dest)
        invariant Await(State(), frames) == Await(paused, left.frames)
        decreases |frames|
      {
        if frames == [] {
          return false, 0, left.(frames := frames);
        }
        ReceiveFrame(frames[0]);
        frames := frames[1..];
      }
      ok, rest := true, left.(frames := frames);
      if !hdrDone {
        b := hdrBuf[hdrRead];
        hdrRead := hdrRead + 1;
        if hdrRead >= HEADER_BYTES {
          hdrDone := true;
        }
      }
    }
  }

  // mem with t written from start on, as far as it fits.
  function Appended(mem: seq<byte>, start: nat, t: seq<byte>): seq<byte> {
    if start + |t| <= |mem| then Overwrite(mem, start, t) else mem
  }

  lemma {:induction false} AppendOne(mem: seq<byte>, start: nat, payload: seq<byte>, i: nat)
    requires i < |payload| && start + i < |mem|
    ensures Appended(mem, start, payload[..i + 1]) == Appended(mem, start, payload[..i])[start + i := payload[i]]
  {
  }
}
