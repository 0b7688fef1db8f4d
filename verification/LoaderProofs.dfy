/** The download protocol: when it delivers the payload, and when it cannot. */
module LoaderProofs {
  import opened Bytes
  import opened Numbers
  import opened Wrappers
  import opened NetworkSpec
  import opened NetworkProofs
  import opened LoaderSpec

  // ---- the header ------------------------------------------------------------------------------

  const MAGIC: seq<byte> := [0x47, 0x4F, 0x21, 0x21]

  // Bytes read most significant first, and least significant first.
  function BigEndian(s: seq<byte>): nat {
    if s == [] then 0 else BigEndian(s[..|s| - 1]) * 256 + s[|s| - 1] as nat
  }

  function LittleEndian(s: seq<byte>): nat {
    if s == [] then 0 else LittleEndian(s[..|s| - 1]) + s[|s| - 1] as nat * Pow256(|s| - 1)
  }

  // The sender's eight bytes for a size.
  function Encode(n: nat, count: nat): (s: seq<byte>)
    ensures |s| == count
  {
    if count == 0 then [] else [(n % 256) as byte] + Encode(n / 256, count - 1)
  }

  lemma {:induction false} LittleEndianFront(b: byte, s: seq<byte>)
    ensures LittleEndian([b] + s) == b as nat + 256 * LittleEndian(s)
  {
    if s == [] {
      assert ([b] + s)[..0] == [];
      assert LittleEndian([b] + s) == LittleEndian([]) + b as nat * Pow256(0);
    } else {
      var front, last := s[..|s| - 1], s[|s| - 1];
      LittleEndianFront(b, front);
      assert ([b] + s)[..|s|] == [b] + front;
      assert last as nat * Pow256(|s|) == 256 * (last as nat * Pow256(|s| - 1));
    }
  }

  // Decoding what the sender encodes gives the size back, for every 64-bit size.
  lemma {:induction false} SizeRoundTrip(n: nat, count: nat)
    requires n < Pow256(count)
    ensures LittleEndian(Encode(n, count)) == n
  {
    if count > 0 {
      assert n / 256 < Pow256(count - 1);
      SizeRoundTrip(n / 256, count - 1);
      LittleEndianFront((n % 256) as byte, Encode(n / 256, count - 1));
    }
  }

  lemma {:induction false} ByteTimes(b: nat, p: nat)
    requires b <= 255
    ensures b * p <= 255 * p
  {
    assert 255 * p == b * p + (255 - b) * p;
  }

  // The accumulator stays below 256^i, so each or adds.
  lemma {:induction false} LittleEndianBound(s: seq<byte>)
    ensures LittleEndian(s) < Pow256(|s|)
  {
    if s != [] {
      LittleEndianBound(s[..|s| - 1]);
      ByteTimes(s[|s| - 1] as nat, Pow256(|s| - 1));
    }
  }

  function Header(size: nat): seq<byte> {
    MAGIC + Encode(size, 8)
  }

  // The phase after k bytes of a header for this size.
  function PhaseAfter(h: seq<byte>, k: nat): Phase
    requires k <= HEADER_BYTES <= |h|
  {
    if k < 4 then Unlocking(BigEndian(h[..k]))
    else if k < 12 then Sizing(k - 4, LittleEndian(h[4..k]))
    else Granted(LittleEndian(h[4..12]))
  }

  lemma {:induction false} MagicPrefix(h: seq<byte>)
    requires |h| >= 4 && h[..4] == MAGIC
    ensures BigEndian(h[..0]) == 0 && BigEndian(h[..1]) == 0x47 && BigEndian(h[..2]) == 0x474F
    ensures BigEndian(h[..3]) == 0x474F21 && BigEndian(h[..4]) == MAGIC_NUMBER
    ensures h[0] == 0x47 && h[1] == 0x4F && h[2] == 0x21 && h[3] == 0x21
  {
    assert h[..4][0] == h[0] && h[..4][1] == h[1] && h[..4][2] == h[2] && h[..4][3] == h[3];
    assert h[..1][..0] == h[..0] && h[..2][..1] == h[..1] && h[..3][..2] == h[..2] && h[..4][..3] == h[..3];
  }

  // One byte of a header advances the phase by one byte.
  lemma {:induction false} HeaderByte(h: seq<byte>, k: nat)
    requires |h| >= HEADER_BYTES && h[..4] == MAGIC && k < HEADER_BYTES
    ensures TakeByte(PhaseAfter(h, k), h[k]) == PhaseAfter(h, k + 1)
  {
    if k < 4 {
      MagicPrefix(h);
    } else {
      assert h[4..k + 1][..k - 4] == h[4..k];
      assert h[4..k + 1][k - 4] == h[k];
    }
  }

  // ---- the protocol ------------------------------------------------------------------------------

  predicate Receiving(phase: Phase) {
    phase.Loading? || phase.Loaded?
  }

  // The events keep to the protocol: the first matching frame carries the header, later ones
  // come once the destination is set; foreign and short frames come at any time; the memory
  // handed over has room.
  predicate Follows(s: Sys, seen: bool, size: nat, events: seq<Event>)
    requires Sized(s.rx)
    decreases |events|
  {
    events == [] || (
      && (match events[0]
          case Arrive(data) =>
            Matches(data) ==> if seen then Receiving(s.phase) else |Payload(data)| >= HEADER_BYTES && Payload(data)[..HEADER_BYTES] == Header(size)
          case Grant(mem) => |mem| >= size
          case Step => true)
      && Follows(Apply(s, events[0]), seen || IsMatch(events[0]), size, events[1..]))
  }

  predicate IsMatch(e: Event) {
    e.Arrive? && Matches(e.data)
  }

  // Has the header frame come?
  function Seen(seen: bool, events: seq<Event>): bool
    decreases |events|
  {
    if events == [] then seen else Seen(seen || IsMatch(events[0]), events[1..])
  }

  // The payloads of the matching frames after the first, in order.
  function Collected(seen: bool, events: seq<Event>): seq<byte>
    decreases |events|
  {
    if events == [] then []
    else (if seen && IsMatch(events[0]) then Payload(events[0].data) else []) + Collected(seen || IsMatch(events[0]), events[1..])
  }

  // What the state is during a download, given the data payloads that have come.
  ghost predicate Downloading(s: Sys, seen: bool, size: nat, data: seq<byte>) {
    && Sized(s.rx)
    && (if Receiving(s.phase) then
          && seen && s.phase.size == size && s.rx.hdrDone && s.rx.dest.Some? && s.rx.expected == size
          && s.rx.received == Min(size, |data|)
          && s.rx.dest.value[..s.rx.received] == data[..s.rx.received]
          && (s.phase.Loaded? ==> s.rx.received == size)
        else
          && data == []
          && if seen then
               && HEADER_BYTES <= s.rx.hdrLen && s.rx.ready && s.rx.hdr[..HEADER_BYTES] == Header(size)
               && s.rx.hdrRead <= HEADER_BYTES && (s.rx.hdrDone <==> s.rx.hdrRead == HEADER_BYTES)
               && s.phase == PhaseAfter(Header(size), s.rx.hdrRead)
             else
               !s.rx.hdrDone && !s.rx.ready && s.rx.hdrRead == 0 && s.phase == Unlocking(0))
  }

  lemma {:induction false} HeaderPhase(size: nat)
    requires size < Pow256(8)
    ensures PhaseAfter(Header(size), 0) == Unlocking(0) && PhaseAfter(Header(size), HEADER_BYTES) == Granted(size)
    ensures Header(size)[..4] == MAGIC
  {
    assert Header(size)[4..12] == Encode(size, 8);
    SizeRoundTrip(size, 8);
  }

  lemma {:induction false} HeaderArrives(s: Sys, size: nat, data: Frame)
    requires Downloading(s, false, size, []) && size < Pow256(8)
    requires Matches(data) && |Payload(data)| >= HEADER_BYTES && Payload(data)[..HEADER_BYTES] == Header(size)
    ensures Downloading(Apply(s, Arrive(data)), true, size, [])
  {
    hide Header, PhaseAfter;
    HeaderPhase(size);
    var payload := Payload(data);
    var n := Min(|payload|, HEADER_FRAME_SIZE);
    assert Overwrite(s.rx.hdr, 0, payload[..n])[..HEADER_BYTES] == payload[..HEADER_BYTES];
  }

  lemma {:induction false} DataArrives(s: Sys, size: nat, data: seq<byte>, frame: Frame)
    requires Downloading(s, true, size, data) && Receiving(s.phase) && Matches(frame)
    ensures Downloading(Apply(s, Arrive(frame)), true, size, data + Payload(frame))
  {
    hide Header, PhaseAfter;
    var payload, mem, r := Payload(frame), s.rx.dest.value, s.rx.received;
    var n := Wanted(s.rx, payload);
    assert (data + payload)[..r + n] == data[..r] + payload[..n];
    if n > 0 {
      assert Overwrite(mem, r, payload[..n])[..r + n] == mem[..r] + payload[..n];
    }
  }

  lemma {:induction false} ReadAdvances(s: Sys, size: nat)
    requires Downloading(s, true, size, []) && Reads(s.phase) && size < Pow256(8)
    ensures HasByte(s.rx) && Downloading(Apply(s, Step), true, size, [])
    ensures Apply(s, Step).rx.hdrRead == s.rx.hdrRead + 1
  {
    hide PhaseAfter, Header, Encode;
    var k, h := s.rx.hdrRead, Header(size);
    HeaderPhase(size);
    assert k < HEADER_BYTES;
    assert s.rx.hdr[..HEADER_BYTES][k] == s.rx.hdr[k];
    assert |h| == HEADER_BYTES;
    HeaderByte(h, k);
  }

  lemma {:induction false} GrantSets(s: Sys, seen: bool, size: nat, data: seq<byte>, mem: seq<byte>)
    requires Downloading(s, seen, size, data) && |mem| >= size && size < Pow256(8)
    ensures Downloading(Apply(s, Grant(mem)), seen, size, data)
  {
    hide Encode;
    HeaderPhase(size);
    if s.phase.Granted? {
      assert data == [];
      assert mem[..0] == data[..0];
    }
  }

  // One event of the protocol, with the data it brings.
  lemma {:induction false} DownloadStep(s: Sys, seen: bool, size: nat, data: seq<byte>, e: Event)
    requires Downloading(s, seen, size, data) && size < Pow256(8) && Follows(s, seen, size, [e])
    ensures Downloading(Apply(s, e), seen || IsMatch(e), size, data + if seen && IsMatch(e) then Payload(e.data) else [])
  {
    hide Header, PhaseAfter;
    assert data + [] == data;
    match e
    case Arrive(frame) =>
      if Matches(frame) {
        if seen {
          DataArrives(s, size, data, frame);
        } else {
          HeaderArrives(s, size, frame);
        }
      }
    case Grant(mem) => GrantSets(s, seen, size, data, mem);
    case Step =>
      if Reads(s.phase) && seen {
        ReadAdvances(s, size);
      }
  }

  lemma {:induction false} FollowsHead(s: Sys, seen: bool, size: nat, events: seq<Event>)
    requires Sized(s.rx) && events != [] && Follows(s, seen, size, events)
    ensures Follows(s, seen, size, [events[0]])
    ensures Follows(Apply(s, events[0]), seen || IsMatch(events[0]), size, events[1..])
  {
    assert [events[0]][1..] == [];
  }

  lemma {:induction false} DownloadingSized(s: Sys, seen: bool, size: nat, data: seq<byte>)
    requires Downloading(s, seen, size, data)
    ensures Sized(s.rx)
  {
  }

  // For every interleaving and every chunking that keeps to the protocol, the state at the end
  // is the one the payloads so far call for.
  lemma {:induction false} DownloadRun(s: Sys, seen: bool, size: nat, data: seq<byte>, events: seq<Event>)
    requires Downloading(s, seen, size, data) && size < Pow256(8) && Follows(s, seen, size, events)
    ensures Downloading(RunEvents(s, events), Seen(seen, events), size, data + Collected(seen, events))
    decreases |events|
  {
    hide Downloading, Apply, Payload, Matches;
    if events == [] {
      assert data + [] == data;
    } else {
      var e := events[0];
      var more := if seen && IsMatch(e) then Payload(e.data) else [];
      DownloadingSized(s, seen, size, data);
      FollowsHead(s, seen, size, events);
      DownloadStep(s, seen, size, data, e);
      DownloadRun(Apply(s, e), seen || IsMatch(e), size, data + more, events[1..]);
      assert data + more + Collected(seen || IsMatch(e), events[1..]) == data + Collected(seen, events);
    }
  }

  // A loader about to poll, after reset_header, whatever the receiver did before.
  function Polling(rx: Rx): Sys {
    Sys(ResetHeader(rx), Unlocking(0))
  }

  // When the loader is done, it has decoded the size that was sent and the destination begins
  // with that many bytes of the payloads, in order.
  lemma {:induction false} DownloadDelivers(rx: Rx, size: nat, events: seq<Event>)
    requires Sized(rx) && size < Pow256(8) && Follows(Polling(rx), false, size, events)
    requires RunEvents(Polling(rx), events).phase.Loaded?
    ensures var s := RunEvents(Polling(rx), events);
      var data := Collected(false, events);
      && s.phase == Loaded(size) && size <= |data|
      && s.rx.dest.Some? && size <= |s.rx.dest.value| && s.rx.dest.value[..size] == data[..size]
  {
    DownloadRun(Polling(rx), false, size, [], events);
    assert [] + Collected(false, events) == Collected(false, events);
  }

  // ---- it gets there -------------------------------------------------------------------------------

  function Steps(n: nat): (e: seq<Event>)
    ensures |e| == n
  {
    if n == 0 then [] else [Step] + Steps(n - 1)
  }

  lemma {:induction false} ReadsHeader(s: Sys, size: nat, n: nat)
    requires Downloading(s, true, size, []) && !Receiving(s.phase) && size < Pow256(8)
    requires s.rx.hdrRead + n == HEADER_BYTES
    ensures RunEvents(s, Steps(n)).phase == Granted(size) && Downloading(RunEvents(s, Steps(n)), true, size, [])
    decreases n
  {
    hide Downloading, Apply, Pow256;
    HeaderBegun(s, size);
    if n > 0 {
      ReadAdvances(s, size);
      StillReading(s, size);
      assert Steps(n)[0] == Step && Steps(n)[1..] == Steps(n - 1);
      ReadsHeader(Apply(s, Step), size, n - 1);
    }
  }

  // The loader reads until the twelfth byte, and then knows the size.
  lemma {:induction false} HeaderBegun(s: Sys, size: nat)
    requires Downloading(s, true, size, []) && !Receiving(s.phase) && size < Pow256(8)
    ensures Sized(s.rx) && s.rx.hdrRead <= HEADER_BYTES
    ensures if s.rx.hdrRead < HEADER_BYTES then Reads(s.phase) else s.phase == Granted(size)
  {
    hide Header, Encode;
    HeaderPhase(size);
  }

  lemma {:induction false} StillReading(s: Sys, size: nat)
    requires Downloading(s, true, size, []) && Reads(s.phase) && size < Pow256(8)
    ensures !Receiving(Apply(s, Step).phase)
  {
  }

  // Once the header frame has come, twelve steps decode the size; once the memory is there and
  // size bytes of data have come, one step ends the download.
  lemma {:induction false} DownloadProgress(rx: Rx, size: nat, events: seq<Event>)
    requires Sized(rx) && size < Pow256(8) && Follows(Polling(rx), false, size, events) && Seen(false, events)
    ensures var s := RunEvents(Polling(rx), events);
      && (!Receiving(s.phase) ==> s.rx.hdrRead <= HEADER_BYTES && RunEvents(s, Steps(HEADER_BYTES - s.rx.hdrRead)).phase == Granted(size))
      && (Receiving(s.phase) && |Collected(false, events)| >= size ==> RunEvents(s, Steps(1)).phase == Loaded(size))
  {
    hide Follows, Collected, PhaseAfter, Header;
    DownloadRun(Polling(rx), false, size, [], events);
    assert [] + Collected(false, events) == Collected(false, events);
    var s := RunEvents(Polling(rx), events);
    if Receiving(s.phase) {
      assert Steps(1)[0] == Step && Steps(1)[1..] == [];
    } else {
      ReadsHeader(s, size, HEADER_BYTES - s.rx.hdrRead);
    }
  }

  // ---- and where the protocol is not kept -----------------------------------------------------------

  // A header frame shorter than 12 bytes leaves the receiver in header mode when it is used up;
  // data mode begins if and only if the frame had 12.
  lemma {:induction false} HeaderModeEnds(s: Rx, n: nat)
    requires Sized(s) && !s.hdrDone && s.ready && s.hdrRead + n == s.hdrLen <= HEADER_FRAME_SIZE && s.hdrRead < HEADER_BYTES
    ensures ReadUp(s, n).hdrDone <==> s.hdrLen >= HEADER_BYTES
    decreases n
  {
    if n > 0 && s.hdrRead + 1 < HEADER_BYTES {
      HeaderModeEnds(ReadByte(s).0, n - 1);
    }
  }

  // Read until the header is done or n bytes are used up.
  function ReadUp(s: Rx, n: nat): Rx
    decreases n
  {
    if n == 0 || s.hdrDone || !HasByte(s) then s else ReadUp(ReadByte(s).0, n - 1)
  }

  // The loader waits for data while the receiver still collects headers.
  predicate Stalled(s: Sys) {
    Sized(s.rx) && !s.rx.hdrDone && s.rx.received == 0 && s.phase.Loading? && s.phase.size > 0
  }

  // From there no frames and no steps ever complete the download.
  lemma {:induction false} StalledForever(s: Sys, events: seq<Event>)
    requires Stalled(s)
    ensures Stalled(RunEvents(s, events))
    decreases |events|
  {
    if events != [] {
      StalledForever(Apply(s, events[0]), events[1..]);
    }
  }

  // Magic and size in two frames, as the README describes the protocol, get the loader there:
  // it decodes the size but never sees the data.
  lemma {:induction false} SplitHandshakeStalls(rx: Rx, size: nat, first: Frame, second: Frame, mem: seq<byte>)
    requires Sized(rx) && 0 < size < Pow256(8) && |mem| >= size
    requires Matches(first) && Payload(first) == MAGIC && Matches(second) && Payload(second) == Encode(size, 8)
    ensures var events := [Arrive(first)] + Steps(4) + [Arrive(second)] + Steps(8) + [Grant(mem)];
      Stalled(RunEvents(Polling(rx), events)) && RunEvents(Polling(rx), events).phase == Loading(size)
  {
    hide Encode, Steps, LittleEndian, BigEndian, Pow256, Apply, RunEvents, Payload, Matches;
    var s0 := Polling(rx);
    MagicFrame(s0, first);
    var s2 := RunEvents(Apply(s0, Arrive(first)), Steps(4));
    SizeFrame(s2, size, second);
    GrantStalls(RunEvents(Apply(s2, Arrive(second)), Steps(8)), size, mem);
    SplitRun(s0, first, second, mem);
  }

  // The loader at work while the receiver still collects headers.
  predicate Collecting(s: Sys) {
    Sized(s.rx) && !s.rx.hdrDone
  }

  lemma {:induction false} MagicFrame(s: Sys, frame: Frame)
    requires Collecting(s) && s.phase == Unlocking(0) && Matches(frame) && Payload(frame) == MAGIC
    ensures var e := RunEvents(Apply(s, Arrive(frame)), Steps(4)); Collecting(e) && e.phase == Sizing(0, 0)
  {
    hide Steps, RunEvents, Payload, Matches;
    assert Overwrite(s.rx.hdr, 0, MAGIC[..4])[..4] == MAGIC;
    MagicRead(Apply(s, Arrive(frame)));
  }

  lemma {:induction false} SizeFrame(s: Sys, size: nat, frame: Frame)
    requires Collecting(s) && s.phase == Sizing(0, 0) && size < Pow256(8)
    requires Matches(frame) && Payload(frame) == Encode(size, 8)
    ensures var e := RunEvents(Apply(s, Arrive(frame)), Steps(8)); Collecting(e) && e.phase == Granted(size)
  {
    hide Encode, Steps, RunEvents, Payload, Matches, Pow256;
    var bytes := Encode(size, 8);
    assert Overwrite(s.rx.hdr, 0, bytes[..8])[..8] == bytes;
    SizeRead(Apply(s, Arrive(frame)), bytes, 0);
    SizeRoundTrip(size, 8);
  }

  lemma {:induction false} GrantStalls(s: Sys, size: nat, mem: seq<byte>)
    requires Collecting(s) && s.phase == Granted(size) && 0 < size <= |mem|
    ensures Stalled(Apply(s, Grant(mem))) && Apply(s, Grant(mem)).phase == Loading(size)
  {
  }

  lemma {:induction false} SplitRun(s0: Sys, first: Frame, second: Frame, mem: seq<byte>)
    requires Sized(s0.rx)
    ensures RunEvents(s0, [Arrive(first)] + Steps(4) + [Arrive(second)] + Steps(8) + [Grant(mem)]) ==
      Apply(RunEvents(Apply(RunEvents(Apply(s0, Arrive(first)), Steps(4)), Arrive(second)), Steps(8)), Grant(mem))
  {
    hide Apply, Steps;
    RunSplit(s0, [Arrive(first)] + Steps(4) + [Arrive(second)] + Steps(8), [Grant(mem)]);
    RunSplit(s0, [Arrive(first)] + Steps(4) + [Arrive(second)], Steps(8));
    RunSplit(s0, [Arrive(first)] + Steps(4), [Arrive(second)]);
    RunSplit(s0, [Arrive(first)], Steps(4));
    RunOne(s0, Arrive(first));
    RunOne(RunEvents(Apply(s0, Arrive(first)), Steps(4)), Arrive(second));
    RunOne(RunEvents(Apply(RunEvents(Apply(s0, Arrive(first)), Steps(4)), Arrive(second)), Steps(8)), Grant(mem));
  }

  lemma {:induction false} RunOne(s: Sys, e: Event)
    requires Sized(s.rx)
    ensures RunEvents(s, [e]) == Apply(s, e)
  {
    assert [e][1..] == [];
  }

  lemma {:induction false} MagicReadFrom(s: Sys, k: nat)
    requires Sized(s.rx) && !s.rx.hdrDone && s.rx.ready && s.rx.hdrLen == 4 && s.rx.hdrRead == k <= 4 && s.rx.hdr[..4] == MAGIC
    requires s.phase == if k < 4 then Unlocking(BigEndian(MAGIC[..k])) else Sizing(0, 0)
    ensures var e := RunEvents(s, Steps(4 - k));
      && e.phase == Sizing(0, 0) && !e.rx.hdrDone && e.rx.received == s.rx.received && e.rx.dest == s.rx.dest
    decreases 4 - k
  {
    if k < 4 {
      MagicPrefix(MAGIC);
      assert s.rx.hdr[..4][k] == s.rx.hdr[k];
      assert Steps(4 - k)[0] == Step && Steps(4 - k)[1..] == Steps(3 - k);
      MagicReadFrom(Apply(s, Step), k + 1);
    }
  }

  lemma {:induction false} MagicRead(s: Sys)
    requires Sized(s.rx) && !s.rx.hdrDone && s.rx.ready && s.rx.hdrLen == 4 && s.rx.hdrRead == 0 && s.rx.hdr[..4] == MAGIC
    requires s.phase == Unlocking(0)
    ensures var e := RunEvents(s, Steps(4));
      && e.phase == Sizing(0, 0) && !e.rx.hdrDone && e.rx.received == s.rx.received && e.rx.dest == s.rx.dest
  {
    assert BigEndian(MAGIC[..0]) == 0;
    MagicReadFrom(s, 0);
  }

  lemma {:induction false} SizeRead(s: Sys, bytes: seq<byte>, k: nat)
    requires Sized(s.rx) && !s.rx.hdrDone && s.rx.ready && s.rx.hdrLen == 8 && s.rx.hdrRead == k <= 8
    requires |bytes| == 8 && s.rx.hdr[..8] == bytes
    requires s.phase == if k < 8 then Sizing(k, LittleEndian(bytes[..k])) else Granted(LittleEndian(bytes))
    ensures var e := RunEvents(s, Steps(8 - k));
      && e.phase == Granted(LittleEndian(bytes)) && !e.rx.hdrDone && e.rx.received == s.rx.received && e.rx.dest == s.rx.dest
    decreases 8 - k
  {
    if k < 8 {
      assert s.rx.hdr[..8][k] == s.rx.hdr[k];
      assert bytes[..k + 1][..k] == bytes[..k] && bytes[..8] == bytes;
      assert Steps(8 - k)[0] == Step && Steps(8 - k)[1..] == Steps(7 - k);
      SizeRead(Apply(s, Step), bytes, k + 1);
    }
  }

  // ---- header frames shorter than 12 bytes ------------------------------------------------------------

  // No matching frame that comes before the memory is handed over has 12 payload bytes.
  predicate ShortHeaders(s: Sys, events: seq<Event>)
    requires Sized(s.rx)
    decreases |events|
  {
    events == [] || (
      && (IsMatch(events[0]) && !Receiving(s.phase) ==> |Payload(events[0].data)| < HEADER_BYTES)
      && ShortHeaders(Apply(s, events[0]), events[1..]))
  }

  // The receiver is in header mode and will stay in it; nothing but an empty payload can be loaded.
  ghost predicate HeaderMode(s: Sys) {
    && Sized(s.rx) && !s.rx.hdrDone
    && (!Receiving(s.phase) ==> s.rx.hdrLen < HEADER_BYTES)
    && (s.phase.Loading? && s.phase.size > 0 ==> s.rx.received == 0)
    && (s.phase.Loaded? ==> s.phase.size == 0)
  }

  lemma {:induction false} HeaderModeStep(s: Sys, e: Event)
    requires HeaderMode(s) && ShortHeaders(s, [e])
    ensures HeaderMode(Apply(s, e))
  {
    hide ShiftIn, AddByte;
    assert [e][1..] == [];
  }

  // Without a header frame of 12 bytes no run loads anything, however the rest goes.
  lemma {:induction false} ShortHeadersNeverLoad(s: Sys, events: seq<Event>)
    requires HeaderMode(s) && ShortHeaders(s, events)
    ensures HeaderMode(RunEvents(s, events))
    decreases |events|
  {
    hide HeaderMode, Apply, Payload;
    if events != [] {
      assert Sized(s.rx) by { HeaderModeSized(s); }
      ShortHead(s, events);
      HeaderModeStep(s, events[0]);
      ShortHeadersNeverLoad(Apply(s, events[0]), events[1..]);
    }
  }

  lemma {:induction false} HeaderModeSized(s: Sys)
    requires HeaderMode(s)
    ensures Sized(s.rx)
  {
  }

  lemma {:induction false} ShortHead(s: Sys, events: seq<Event>)
    requires Sized(s.rx) && events != [] && ShortHeaders(s, events)
    ensures ShortHeaders(s, [events[0]]) && ShortHeaders(Apply(s, events[0]), events[1..])
  {
    assert [events[0]][1..] == [];
  }

  // ---- a sender that cuts the header ---------------------------------------------------------------

  function Concat(chunks: seq<seq<byte>>): seq<byte> {
    if chunks == [] then [] else chunks[0] + Concat(chunks[1..])
  }

  // What is left to send of the header after an event.
  function ChunksLeft(chunks: seq<seq<byte>>, e: Event): seq<seq<byte>> {
    if IsMatch(e) && chunks != [] then chunks[1..] else chunks
  }

  // The matching frames are the pieces of the header in order, then data, once the destination is
  // set; foreign and short frames come at any time; the memory handed over has room.
  predicate FollowsCut(s: Sys, chunks: seq<seq<byte>>, size: nat, events: seq<Event>)
    requires Sized(s.rx)
    decreases |events|
  {
    events == [] || (
      && (match events[0]
          case Arrive(data) => Matches(data) ==> if chunks != [] then Payload(data) == chunks[0] else Receiving(s.phase)
          case Grant(mem) => |mem| >= size
          case Step => true)
      && FollowsCut(Apply(s, events[0]), ChunksLeft(chunks, events[0]), size, events[1..]))
  }

  // The payloads after the header, in order.
  function DataAfter(chunks: seq<seq<byte>>, events: seq<Event>): seq<byte>
    decreases |events|
  {
    if events == [] then []
    else
      var here := if IsMatch(events[0]) && chunks == [] then Payload(events[0].data) else [];
      here + DataAfter(ChunksLeft(chunks, events[0]), events[1..])
  }

  lemma {:induction false} CutIsShort(s: Sys, chunks: seq<seq<byte>>, size: nat, events: seq<Event>)
    requires Sized(s.rx) && FollowsCut(s, chunks, size, events)
    requires forall i :: 0 <= i < |chunks| ==> |chunks[i]| < HEADER_BYTES
    ensures ShortHeaders(s, events)
    decreases |events|
  {
    hide Apply, Payload, Matches;
    if events != [] {
      CutIsShort(Apply(s, events[0]), ChunksLeft(chunks, events[0]), size, events[1..]);
    }
  }

  lemma {:induction false} WholeFollows(s: Sys, size: nat, events: seq<Event>)
    requires Sized(s.rx)
    ensures FollowsCut(s, [], size, events) ==> Follows(s, true, size, events)
    ensures FollowsCut(s, [Header(size)], size, events) ==> Follows(s, false, size, events)
    ensures DataAfter([], events) == Collected(true, events)
    ensures DataAfter([Header(size)], events) == Collected(false, events)
    decreases |events|
  {
    hide Apply, Payload, Matches, Header;
    if events != [] {
      WholeFollows(Apply(s, events[0]), size, events[1..]);
      assert [Header(size)][1..] == [];
      assert Header(size)[..HEADER_BYTES] == Header(size) by { HeaderLength(size); }
      HeaderLength(size);
    }
  }

  lemma {:induction false} HeaderLength(size: nat)
    ensures |Header(size)| == HEADER_BYTES
  {
  }

  lemma {:induction false} PieceShorter(chunks: seq<seq<byte>>, i: nat)
    requires i < |chunks| && |chunks| > 1 && forall j :: 0 <= j < |chunks| ==> chunks[j] != []
    ensures |chunks[i]| < |Concat(chunks)|
    decreases |chunks|
  {
    var rest := chunks[1..];
    if i == 0 {
      assert rest[0] != [];
      assert |Concat(rest)| >= |rest[0]|;
    } else if |rest| > 1 {
      PieceShorter(rest, i - 1);
    } else {
      assert Concat(rest) == rest[0] + [];
    }
  }

  // A sender that cuts magic and size into frames anywhere, and then sends at least as many bytes of
  // data as it announced: the payload is loaded if and only if the header came in one frame.
  lemma {:induction false} HandshakeExact(rx: Rx, chunks: seq<seq<byte>>, size: nat, events: seq<Event>)
    requires Sized(rx) && 0 < size < Pow256(8)
    requires Concat(chunks) == Header(size) && forall i :: 0 <= i < |chunks| ==> chunks[i] != []
    requires FollowsCut(Polling(rx), chunks, size, events) && size <= |DataAfter(chunks, events)|
    ensures RunEvents(Polling(rx), events + [Step]).phase == Loaded(size) <==> |chunks| == 1
  {
    hide RunEvents, FollowsCut, DataAfter, Pow256, Apply, Header;
    HeaderLength(size);
    RunSplit(Polling(rx), events, [Step]);
    if |chunks| == 1 {
      assert chunks == [Header(size)] by { OnePiece(chunks); }
      WholeFollows(Polling(rx), size, events);
      WholeLoads(rx, size, events);
    } else {
      assert |chunks| > 1 by { assert Concat([]) == []; }
      forall i | 0 <= i < |chunks|
        ensures |chunks[i]| < HEADER_BYTES
      {
        PieceShorter(chunks, i);
      }
      CutIsShort(Polling(rx), chunks, size, events);
      ShortNotLoaded(rx, size, events);
    }
  }

  lemma {:induction false} OnePiece(chunks: seq<seq<byte>>)
    requires |chunks| == 1
    ensures chunks == [Concat(chunks)]
  {
    assert chunks[0] + [] == chunks[0];
  }

  lemma {:induction false} WholeLoads(rx: Rx, size: nat, events: seq<Event>)
    requires Sized(rx) && 0 < size < Pow256(8) && Follows(Polling(rx), false, size, events)
    requires size <= |Collected(false, events)|
    ensures RunEvents(RunEvents(Polling(rx), events), [Step]).phase == Loaded(size)
  {
    hide Follows, PhaseAfter, Header, Pow256;
    DownloadRun(Polling(rx), false, size, [], events);
    assert [] + Collected(false, events) == Collected(false, events);
    DownloadProgress(rx, size, events);
    assert Steps(1) == [Step] + Steps(0) && Steps(0) == [];
    assert Steps(1) == [Step];
  }

  lemma {:induction false} ShortNotLoaded(rx: Rx, size: nat, events: seq<Event>)
    requires Sized(rx) && size > 0 && ShortHeaders(Polling(rx), events)
    ensures RunEvents(RunEvents(Polling(rx), events), [Step]).phase != Loaded(size)
  {
    hide ShortHeaders;
    var s := RunEvents(Polling(rx), events);
    ShortHeadersNeverLoad(Polling(rx), events);
    RunOne(s, Step);
    assert Sized(s.rx);
    StepIsShort(s);
    HeaderModeStep(s, Step);
  }

  lemma {:induction false} StepIsShort(s: Sys)
    requires Sized(s.rx)
    ensures ShortHeaders(s, [Step])
  {
    assert [Step][1..] == [];
  }

  // Twelve header bytes without the magic: the receiver then reads zeros only, and the loader
  // never unlocks.
  lemma {:induction false} NeverUnlocks(s: Sys, events: seq<Event>)
    requires Sized(s.rx) && s.rx.hdrDone && s.phase.Unlocking?
    ensures var e := RunEvents(s, events); e.rx.hdrDone && e.phase.Unlocking?
    decreases |events|
  {
    if events != [] {
      NeverUnlocks(Apply(s, events[0]), events[1..]);
    }
  }

  // A data frame before network_set_dest, after a finished download or before the first one,
  // is lost.
  lemma {:induction false} EarlyFrameIsLost(s: Sys, data: Frame)
    requires Sized(s.rx) && s.rx.hdrDone && (s.rx.dest.None? || s.rx.received >= s.rx.expected)
    ensures Apply(s, Arrive(data)) == s
  {
  }
}
