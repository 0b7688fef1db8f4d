/**
 The frame receiver as functions on values. Before the header is consumed a frame fills the
 header buffer; afterwards payload bytes go straight to the destination.
 */
module NetworkSpec {
  import opened Bytes
  import opened Numbers
  import opened Wrappers

  type Frame = seq<byte>

  const ETH_HEADER_SIZE: nat := 14
  const HEADER_FRAME_SIZE: nat := 16
  const ETHERTYPE_CUSTOM: nat := 0x88B5
  const HEADER_BYTES: nat := 12   // magic and size

  // dest: the memory rx_dest points to, None for the null pointer. hdr: the header buffer.
  datatype Rx = Rx(dest: Option<seq<byte>>, expected: nat, received: nat,
                   ready: bool, hdr: seq<byte>, hdrLen: nat, hdrRead: nat, hdrDone: bool)

  function SetDest(s: Rx, mem: seq<byte>, expected: nat): Rx {
    s.(dest := Some(mem), expected := expected, received := 0)
  }

  function ResetHeader(s: Rx): Rx {
    s.(hdrDone := false, hdrLen := 0, hdrRead := 0, ready := false)
  }

  // A frame longer than the Ethernet header, with the custom type.
  predicate Matches(data: Frame) {
    |data| > ETH_HEADER_SIZE && data[12] as nat * 256 + data[13] as nat == ETHERTYPE_CUSTOM
  }

  function Payload(data: Frame): seq<byte>
    requires Matches(data)
  {
    data[ETH_HEADER_SIZE..]
  }

  // s with the bytes at index at.. replaced by those of t.
  function Overwrite(s: seq<byte>, at: nat, t: seq<byte>): seq<byte>
    requires at + |t| <= |s|
  {
    s[..at] + t + s[at + |t|..]
  }

  // The buffer has its fixed size, the destination room for what is expected, and header mode ends
  // with the twelfth byte.
  predicate Sized(s: Rx) {
    && |s.hdr| == HEADER_FRAME_SIZE
    && (!s.hdrDone ==> s.hdrRead < HEADER_BYTES)
    && (s.dest.Some? ==> s.expected <= |s.dest.value|)
  }

  // How many bytes of a payload are still wanted.
  function Wanted(s: Rx, payload: seq<byte>): nat {
    if s.received >= s.expected then 0 else Min(|payload|, s.expected - s.received)
  }

  // network_receive_frame
  function ReceiveFrame(s: Rx, data: Frame): (r: Rx)
    requires Sized(s)
    ensures Sized(r)
  {
    if !Matches(data) then s
    else
      var payload := Payload(data);
      if !s.hdrDone then
        var n := Min(|payload|, HEADER_FRAME_SIZE);
        s.(hdr := Overwrite(s.hdr, 0, payload[..n]), hdrLen := n, hdrRead := 0, ready := true)
      else match s.dest
        case None => s
        case Some(mem) =>
          var n := Wanted(s, payload);
          s.(dest := Some(if n == 0 then mem else Overwrite(mem, s.received, payload[..n])), received := s.received + n)
  }

  // read_ethernet returns at once, in header mode and in data mode.
  predicate HasByte(s: Rx) {
    if s.hdrDone then s.received > 0 else s.ready && s.hdrRead < s.hdrLen
  }

  function ReadByte(s: Rx): (Rx, byte)
    requires HasByte(s)
  {
    if s.hdrDone then (s, 0)
    else
      (s.(hdrRead := s.hdrRead + 1, hdrDone := s.hdrRead + 1 >= HEADER_BYTES),
       if s.hdrRead < |s.hdr| then s.hdr[s.hdrRead] else 0)
  }

  // The frames arrive one after another.
  function DeliverAll(s: Rx, frames: seq<Frame>): (r: Rx)
    requires Sized(s)
    ensures Sized(r)
    decreases |frames|
  {
    if frames == [] then s else DeliverAll(ReceiveFrame(s, frames[0]), frames[1..])
  }

  // The wait of read_ethernet: frames come in until there is a byte. Then the state, and the frames
  // still to come.
  function Await(s: Rx, frames: seq<Frame>): (r: (Rx, seq<Frame>))
    requires Sized(s)
    ensures Sized(r.0) && (HasByte(r.0) || r.1 == [])
    ensures |r.1| < |frames| || r == (s, frames)
    decreases |frames|
  {
    if HasByte(s) || frames == [] then (s, frames) else Await(ReceiveFrame(s, frames[0]), frames[1..])
  }

  // It takes the fewest frames that bring a byte.
  lemma {:induction false} AwaitIsLeast(s: Rx, frames: seq<Frame>)
    requires Sized(s)
    ensures var (waited, rest) := Await(s, frames);
      var n := |frames| - |rest|;
      && 0 <= n && rest == frames[n..] && waited == DeliverAll(s, frames[..n])
      && forall i :: 0 <= i < n ==> !HasByte(DeliverAll(s, frames[..i]))
    decreases |frames|
  {
    hide ReceiveFrame, HasByte;
    if !HasByte(s) && frames != [] {
      var s1 := ReceiveFrame(s, frames[0]);
      AwaitIsLeast(s1, frames[1..]);
      var n := |frames| - |Await(s, frames).1|;
      assert frames[..n][1..] == frames[1..][..n - 1];
      forall i | 0 <= i < n
        ensures !HasByte(DeliverAll(s, frames[..i]))
      {
        if i > 0 {
          assert frames[..i][1..] == frames[1..][..i - 1];
        }
      }
    }
  }

  // ---- frames that come while nobody waits -----------------------------------------------------------

  // The frames that are to come, and how many of them come in each of the next pauses of the loader:
  // the time before each read, and that between the size and network_set_dest. Once the list of
  // pauses is used up, frames come only while the loader waits for one.
  datatype Line = Line(frames: seq<Frame>, early: seq<nat>)

  // How many frames come in the next pause, and the pauses after it.
  function Arriving(line: Line): (n: nat)
    ensures n <= |line.frames|
  {
    if line.early == [] then 0 else Min(line.early[0], |line.frames|)
  }

  function Later(early: seq<nat>): seq<nat> {
    if early == [] then [] else early[1..]
  }

  function AfterPause(line: Line): Line {
    Line(line.frames[Arriving(line)..], Later(line.early))
  }

  function Pause(s: Rx, line: Line): (r: (Rx, Line))
    requires Sized(s)
    ensures Sized(r.0)
  {
    (DeliverAll(s, line.frames[..Arriving(line)]), AfterPause(line))
  }

  // read_ethernet as a whole, with the pause before it. ok is false where it would wait for ever.
  datatype Reading = Reading(ok: bool, b: byte, rx: Rx, rest: Line)

  function ReadFrom(s: Rx, line: Line): (r: Reading)
    requires Sized(s)
    ensures Sized(r.rx)
  {
    var (paused, left) := Pause(s, line);
    var (waited, rest) := Await(paused, left.frames);
    if HasByte(waited) then
      var (rx, b) := ReadByte(waited);
      Reading(true, b, rx, left.(frames := rest))
    else
      Reading(false, 0, waited, left.(frames := rest))
  }

  // A read takes a frame, or the next header byte, or ends header mode.
  lemma {:induction false} ReadTakes(s: Rx, line: Line)
    requires Sized(s)
    ensures var r := ReadFrom(s, line);
      && |r.rest.frames| <= |line.frames|
      && (r.ok && !s.hdrDone ==> |r.rest.frames| < |line.frames| || r.rx.hdrDone || r.rx.hdrRead == s.hdrRead + 1)
  {
    hide ReceiveFrame;
    assert Arriving(line) == 0 ==> line.frames[..0] == [];
  }

  // Where a byte is there and no frame comes, none is waited for.
  lemma {:induction false} ReadAtOnce(s: Rx, line: Line)
    requires Sized(s) && HasByte(s) && DeliverAll(s, line.frames[..Arriving(line)]) == s
    ensures ReadFrom(s, line) == Reading(true, ReadByte(s).1, ReadByte(s).0, AfterPause(line))
  {
  }

  lemma {:induction false} DoneStays(s: Rx, frames: seq<Frame>)
    requires Sized(s) && s.hdrDone
    ensures DeliverAll(s, frames).hdrDone
    decreases |frames|
  {
    hide Matches;
    if frames != [] {
      DoneStays(ReceiveFrame(s, frames[0]), frames[1..]);
    }
  }

  // A read after the header gives 0, once some data has come.
  lemma {:induction false} DataRead(s: Rx, line: Line)
    requires Sized(s) && s.hdrDone
    ensures var r := ReadFrom(s, line); r.rx.hdrDone && r.b == 0 && (r.ok <==> r.rx.received > 0)
  {
    hide ReceiveFrame, DeliverAll;
    DoneStays(s, line.frames[..Arriving(line)]);
    var (paused, left) := Pause(s, line);
    AwaitIsLeast(paused, left.frames);
    DoneStays(paused, left.frames[..|left.frames| - |Await(paused, left.frames).1|]);
  }

  // A read before that gives the next byte of the header buffer, and the twelfth is the last.
  lemma {:induction false} HeaderRead(s: Rx, line: Line)
    requires Sized(s) && !s.hdrDone && s.ready && s.hdrRead < s.hdrLen <= 16
    requires DeliverAll(s, line.frames[..Arriving(line)]) == s && |s.hdr| == 16
    ensures var r := ReadFrom(s, line);
      r.ok && r.b == s.hdr[s.hdrRead] && r.rx == s.(hdrRead := s.hdrRead + 1, hdrDone := s.hdrRead + 1 >= 12)
  {
    ReadAtOnce(s, line);
  }

  lemma {:induction false} DeliverJoin(s: Rx, a: seq<Frame>, b: seq<Frame>)
    requires Sized(s)
    ensures DeliverAll(s, a + b) == DeliverAll(DeliverAll(s, a), b)
    decreases |a|
  {
    hide ReceiveFrame;
    if a == [] {
      assert a + b == b;
    } else {
      assert (a + b)[0] == a[0] && (a + b)[1..] == a[1..] + b;
      DeliverJoin(ReceiveFrame(s, a[0]), a[1..], b);
    }
  }
}
