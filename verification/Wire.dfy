/** The protocol in bytes on the wire: what a sender must send, and what then arrives. */
module Wire {
  import opened Bytes
  import opened Wrappers
  import opened NetworkSpec
  import opened LoaderSpec
  import opened LoaderProofs
  import opened PollTurn
  import opened Pacing

  // ---- frames ------------------------------------------------------------------------------------------

  // Twelve bytes of addresses, the type 0x88B5, and a chunk that is not empty; any other frame has none.
  function Chunk(frame: Frame): Option<seq<byte>> {
    if |frame| > 14 && frame[12] == 0x88 && frame[13] == 0xB5 then Some(frame[14..]) else None
  }

  // The chunks of the frames that have one, in order.
  function Chunks(frames: seq<Frame>): seq<seq<byte>>
    decreases |frames|
  {
    if frames == [] then []
    else (if Chunk(frames[0]).Some? then [Chunk(frames[0]).value] else []) + Chunks(frames[1..])
  }

  function Concat(chunks: seq<seq<byte>>): seq<byte>
    decreases |chunks|
  {
    if chunks == [] then [] else chunks[0] + Concat(chunks[1..])
  }

  // The frames of a sender with these addresses and chunks.
  function FramesOf(addresses: seq<seq<byte>>, chunks: seq<seq<byte>>): (frames: seq<Frame>)
    requires |addresses| == |chunks|
    ensures |frames| == |chunks|
  {
    seq(|chunks|, i requires 0 <= i < |chunks| => addresses[i] + [0x88, 0xB5] + chunks[i])
  }

  lemma {:induction false} ChunkIs(frame: Frame)
    ensures Matches(frame) <==> Chunk(frame).Some?
    ensures Matches(frame) ==> Payload(frame) == Chunk(frame).value
  {
  }

  // A frame of at most 14 bytes, or of another type, changes nothing.
  lemma {:induction false} ForeignFrame(s: Rx, frame: Frame)
    requires Sized(s) && (|frame| <= 14 || frame[12] != 0x88 || frame[13] != 0xB5)
    ensures ReceiveFrame(s, frame) == s
  {
    ChunkIs(frame);
  }

  // A chunk that comes before the header is used up replaces what is left of it, cut to 16 bytes.
  lemma {:induction false} HeaderChunk(s: Rx, frame: Frame)
    requires Sized(s) && !s.hdrDone && Chunk(frame).Some?
    ensures var r, chunk := ReceiveFrame(s, frame), Chunk(frame).value;
      && r.ready && r.hdrRead == 0 && !r.hdrDone && r.dest == s.dest && r.received == s.received
      && |r.hdr| == 16 && r.hdrLen == (if |chunk| > 16 then 16 else |chunk|) && r.hdr[..r.hdrLen] == chunk[..r.hdrLen]
  {
    ChunkIs(frame);
  }

  // A chunk that comes with a destination set is appended, as far as it is expected; without one, or with
  // all there, nothing happens.
  lemma {:induction false} DataChunk(s: Rx, frame: Frame)
    requires Sized(s) && s.hdrDone && Chunk(frame).Some?
    ensures s.dest.None? || s.received >= s.expected ==> ReceiveFrame(s, frame) == s
    ensures s.dest.Some? && s.received < s.expected ==>
      var r, chunk := ReceiveFrame(s, frame), Chunk(frame).value;
      var n := if |chunk| > s.expected - s.received then s.expected - s.received else |chunk|;
      && r == s.(dest := r.dest, received := s.received + n) && r.dest.Some? && |r.dest.value| == |s.dest.value|
      && forall i :: 0 <= i < |s.dest.value| ==>
           r.dest.value[i] == if s.received <= i < s.received + n then chunk[i - s.received] else s.dest.value[i]
  {
    ChunkIs(frame);
  }

  lemma {:induction false} BuiltFrame(address: seq<byte>, chunk: seq<byte>)
    requires |address| == 12 && chunk != []
    ensures Chunk(address + [0x88, 0xB5] + chunk) == Some(chunk)
  {
    var frame := address + [0x88, 0xB5] + chunk;
    assert frame[12] == 0x88 && frame[13] == 0xB5 && frame[14..] == chunk;
  }

  lemma {:induction false} BuiltChunks(addresses: seq<seq<byte>>, chunks: seq<seq<byte>>)
    requires |addresses| == |chunks| && forall i :: 0 <= i < |chunks| ==> |addresses[i]| == 12 && chunks[i] != []
    ensures Chunks(FramesOf(addresses, chunks)) == chunks
    decreases |chunks|
  {
    hide Chunk;
    if chunks != [] {
      BuiltFrame(addresses[0], chunks[0]);
      BuiltChunks(addresses[1..], chunks[1..]);
      assert FramesOf(addresses, chunks)[1..] == FramesOf(addresses[1..], chunks[1..]);
    }
  }

  // ---- what is sent, in the terms of the receiver ---------------------------------------------------

  lemma {:induction false} ChunksData(frames: seq<Frame>)
    ensures DataOf(frames) == Concat(Chunks(frames))
    decreases |frames|
  {
    hide Chunk, Matches, Payload;
    if frames != [] {
      ChunkIs(frames[0]);
      ChunksData(frames[1..]);
      var c := Chunk(frames[0]);
      if c.Some? {
        assert Chunks(frames) == [c.value] + Chunks(frames[1..]);
      } else {
        assert Chunks(frames) == Chunks(frames[1..]) && [] + DataOf(frames[1..]) == DataOf(frames[1..]);
      }
    }
  }

  lemma {:induction false} FirstChunk(frames: seq<Frame>)
    requires Chunks(frames) != []
    ensures var h := HeaderAt(frames);
      h < |frames| && Payload(frames[h]) == Chunks(frames)[0] && DataSent(frames) == Concat(Chunks(frames)[1..])
    decreases |frames|
  {
    hide Chunk, Matches, Payload, DataOf, Concat;
    ChunkIs(frames[0]);
    if Chunk(frames[0]).Some? {
      ChunksData(frames[1..]);
      assert Chunks(frames)[1..] == Chunks(frames[1..]);
    } else {
      assert Chunks(frames) == Chunks(frames[1..]);
      FirstChunk(frames[1..]);
      var h := HeaderAt(frames[1..]);
      assert frames[1..][h] == frames[h + 1];
      assert frames[1..][h + 1..] == frames[h + 2..];
    }
  }

  // ---- the header ------------------------------------------------------------------------------------

  // "GO!!", then the size in eight bytes, least significant first; bytes after those are ignored.
  predicate Announces(chunk: seq<byte>, size: nat) {
    && |chunk| >= 12 && chunk[0] == 0x47 && chunk[1] == 0x4F && chunk[2] == 0x21 && chunk[3] == 0x21
    && size == chunk[4] as nat + 0x100 * chunk[5] as nat + 0x1_0000 * chunk[6] as nat + 0x100_0000 * chunk[7] as nat
             + 0x1_0000_0000 * chunk[8] as nat + 0x100_0000_0000 * chunk[9] as nat
             + 0x1_0000_0000_0000 * chunk[10] as nat + 0x100_0000_0000_0000 * chunk[11] as nat
  }

  function NumberOf(s: seq<byte>): nat
    decreases |s|
  {
    if s == [] then 0 else s[0] as nat + 256 * NumberOf(s[1..])
  }

  lemma {:induction false} EncodeNumber(s: seq<byte>)
    ensures Encode(NumberOf(s), |s|) == s && NumberOf(s) < Pow256(|s|)
    decreases |s|
  {
    if s != [] {
      var n := NumberOf(s[1..]);
      EncodeNumber(s[1..]);
      assert (s[0] as nat + 256 * n) / 256 == n && (s[0] as nat + 256 * n) % 256 == s[0] as nat;
    }
  }

  lemma {:induction false} EightBytes(s: seq<byte>)
    requires |s| == 8
    ensures NumberOf(s) == s[0] as nat + 0x100 * s[1] as nat + 0x1_0000 * s[2] as nat + 0x100_0000 * s[3] as nat
             + 0x1_0000_0000 * s[4] as nat + 0x100_0000_0000 * s[5] as nat
             + 0x1_0000_0000_0000 * s[6] as nat + 0x100_0000_0000_0000 * s[7] as nat
  {
    assert NumberOf(s[8..]) == 0;
    assert s[7..][1..] == s[8..] && NumberOf(s[7..]) == s[7] as nat;
    assert s[6..][1..] == s[7..] && NumberOf(s[6..]) == s[6] as nat + 256 * NumberOf(s[7..]);
    assert s[5..][1..] == s[6..] && NumberOf(s[5..]) == s[5] as nat + 256 * NumberOf(s[6..]);
    assert s[4..][1..] == s[5..] && NumberOf(s[4..]) == s[4] as nat + 256 * NumberOf(s[5..]);
    assert s[3..][1..] == s[4..] && NumberOf(s[3..]) == s[3] as nat + 256 * NumberOf(s[4..]);
    assert s[2..][1..] == s[3..] && NumberOf(s[2..]) == s[2] as nat + 256 * NumberOf(s[3..]);
    assert s[1..][1..] == s[2..] && NumberOf(s[1..]) == s[1] as nat + 256 * NumberOf(s[2..]);
  }

  lemma {:induction false} AnnouncedHeader(chunk: seq<byte>, size: nat)
    requires Announces(chunk, size)
    ensures |chunk| >= HEADER_BYTES && chunk[..HEADER_BYTES] == Header(size) && size < Pow256(8)
  {
    hide Encode;
    var b := chunk[4..12];
    EightBytes(b);
    EncodeNumber(b);
    assert chunk[..12] == chunk[..4] + b && chunk[..4] == [0x47, 0x4F, 0x21, 0x21];
  }

  // One more byte: the byte above the lowest three is shifted out.
  lemma {:induction false} OneMoreByte(high: nat, z: nat, y: nat, x: nat, b: byte)
    requires z < 256 && y < 256 && x < 256
    ensures ShiftIn(0x100_0000 * high + 0x1_0000 * z + 0x100 * y + x, b) == 0x100_0000 * z + 0x1_0000 * y + 0x100 * x + b as nat
  {
    var low := 0x100_0000 * z + 0x1_0000 * y + 0x100 * x + b as nat;
    assert (0x100_0000 * high + 0x1_0000 * z + 0x100 * y + x) * 256 + b as nat == 0x1_0000_0000 * high + low;
  }

  lemma {:induction false} LowThree(n: nat) returns (high: nat, z: nat, y: nat, x: nat)
    ensures z < 256 && y < 256 && x < 256 && n == 0x100_0000 * high + 0x1_0000 * z + 0x100 * y + x
  {
    high, z, y, x := n / 256 / 256 / 256, n / 256 / 256 % 256, n / 256 % 256, n % 256;
  }

  // Whatever was read before, the magic is found if and only if the last four bytes are "GO!!".
  lemma {:induction false} LastFourBytes(magic: nat, a: byte, b: byte, c: byte, d: byte)
    ensures ShiftIn(ShiftIn(ShiftIn(ShiftIn(magic, a), b), c), d)
         == 0x100_0000 * a as nat + 0x1_0000 * b as nat + 0x100 * c as nat + d as nat
    ensures ShiftIn(ShiftIn(ShiftIn(ShiftIn(magic, a), b), c), d) == MAGIC_NUMBER <==>
      a == 0x47 && b == 0x4F && c == 0x21 && d == 0x21
  {
    hide ShiftIn;
    var high, z, y, x := LowThree(magic);
    OneMoreByte(high, z, y, x, a);
    OneMoreByte(z, y, x, a as nat, b);
    OneMoreByte(y, x, a as nat, b as nat, c);
    OneMoreByte(x, a as nat, b as nat, c as nat, d);
  }

  // ---- delivery --------------------------------------------------------------------------------------

  // The first chunk announces the size and the later ones hold as many bytes.
  predicate Sent(frames: seq<Frame>, size: nat) {
    Chunks(frames) != [] && Announces(Chunks(frames)[0], size) && size <= |Concat(Chunks(frames)[1..])|
  }

  lemma {:induction false} SentSends(frames: seq<Frame>, size: nat)
    requires Sent(frames, size)
    ensures Sends(frames, size) && size < Pow256(8) && DataSent(frames) == Concat(Chunks(frames)[1..])
  {
    hide Announces, Header, Pow256, HeaderAt, Concat, Chunks, DataSent, Payload;
    FirstChunk(frames);
    AnnouncedHeader(Chunks(frames)[0], size);
  }

  // With these bytes on the wire, at the right pace, the turn ends with that size and the destination
  // begins with the later chunks, one after another.
  lemma {:induction false} WireDelivers(s: Rx, line: Line, size: nat)
    requires Sized(s) && Sent(line.frames, size) && Paced(line)
    ensures var o, sent := PollRun(s, line), Concat(Chunks(line.frames)[1..]);
      && o.ok && o.value == size <= |sent| && o.rx.dest.Some? && size <= |o.rx.dest.value|
      && o.rx.dest.value[..size] == sent[..size]
  {
    hide Sent, Sends, PollRun, Paced, Concat, Chunks, DataSent, Pow256;
    SentSends(line.frames, size);
    PollDelivers(s, line, size);
  }

  // A sender that does nothing but send a header and its chunks.
  lemma {:induction false} SenderDelivers(s: Rx, addresses: seq<seq<byte>>, chunks: seq<seq<byte>>, early: seq<nat>, size: nat)
    requires Sized(s) && |addresses| == |chunks| > 0
    requires forall i :: 0 <= i < |chunks| ==> |addresses[i]| == 12 && chunks[i] != []
    requires Announces(chunks[0], size) && size <= |Concat(chunks[1..])| && Paced(Line(FramesOf(addresses, chunks), early))
    ensures var o, sent := PollRun(s, Line(FramesOf(addresses, chunks), early)), Concat(chunks[1..]);
      o.ok && o.value == size && o.rx.dest.Some? && size <= |o.rx.dest.value| && o.rx.dest.value[..size] == sent[..size]
  {
    hide PollRun, Paced, Concat, Chunks, Announces, FramesOf;
    BuiltChunks(addresses, chunks);
    WireDelivers(s, Line(FramesOf(addresses, chunks), early), size);
  }
}
