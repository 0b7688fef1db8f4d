/**
 What a sender's frames must be, and when they must come, for a POLLING turn to deliver. The receiver
 has room for one header and, until the kernel has set a destination, none for data: frames that come
 between the header and that moment are lost.
 */
module Pacing {
  import opened Bytes
  import opened Numbers
  import opened Wrappers
  import opened PmmSpec
  import opened NetworkSpec
  import opened LoaderSpec
  import opened LoaderProofs
  import opened PollTurn

  // ---- what is sent ----------------------------------------------------------------------------------

  // The payloads of the matching frames, in order.
  function DataOf(frames: seq<Frame>): seq<byte>
    decreases |frames|
  {
    if frames == [] then []
    else (if Matches(frames[0]) then Payload(frames[0]) else []) + DataOf(frames[1..])
  }

  // No frame matches.
  predicate Quiet(frames: seq<Frame>) {
    forall i :: 0 <= i < |frames| ==> !Matches(frames[i])
  }

  // The first matching frame.
  function HeaderAt(frames: seq<Frame>): (h: nat)
    ensures h <= |frames| && Quiet(frames[..h])
    ensures h < |frames| ==> Matches(frames[h])
    decreases |frames|
  {
    if frames == [] || Matches(frames[0]) then 0
    else
      var h := 1 + HeaderAt(frames[1..]);
      assert forall i :: 0 < i < h ==> frames[i] == frames[1..][..h - 1][i - 1];
      h
  }

  // The data after it.
  function DataSent(frames: seq<Frame>): seq<byte> {
    if HeaderAt(frames) < |frames| then DataOf(frames[HeaderAt(frames) + 1..]) else []
  }

  // The first matching frame begins with the header for this size, and the later ones hold at least
  // as many bytes. Foreign and short frames come anywhere.
  predicate Sends(frames: seq<Frame>, size: nat) {
    var h := HeaderAt(frames);
    && h < |frames| && |Payload(frames[h])| >= HEADER_BYTES && Payload(frames[h])[..HEADER_BYTES] == Header(size)
    && size <= |DataSent(frames)|
  }

  // ---- when it comes ---------------------------------------------------------------------------------

  // In the next k pauses no matching frame comes.
  predicate Calm(line: Line, k: nat)
    decreases k
  {
    k == 0 || (Quiet(line.frames[..Arriving(line)]) && Calm(AfterPause(line), k - 1))
  }

  // The first read takes the header, and all that comes before it.
  function FirstTaken(line: Line): (t: nat)
    requires HeaderAt(line.frames) < |line.frames|
    ensures HeaderAt(line.frames) + 1 <= t <= |line.frames| && Arriving(line) <= t
  {
    Max(HeaderAt(line.frames) + 1, Arriving(line))
  }

  function AfterFirst(line: Line): Line
    requires HeaderAt(line.frames) < |line.frames|
  {
    Line(line.frames[FirstTaken(line)..], Later(line.early))
  }

  // Between the header and network_set_dest nothing comes that matches: not with the header, not in the
  // pauses before the eleven other reads, and not in the last one, in which the pages are mapped.
  predicate Paced(line: Line) {
    var h := HeaderAt(line.frames);
    h < |line.frames| && Quiet(line.frames[h + 1..FirstTaken(line)]) && Calm(AfterFirst(line), 12)
  }

  // ---- quiet frames ------------------------------------------------------------------------------------

  lemma {:induction false} DataJoin(a: seq<Frame>, b: seq<Frame>)
    ensures DataOf(a + b) == DataOf(a) + DataOf(b)
    decreases |a|
  {
    hide Matches;
    if a == [] {
      assert a + b == b;
    } else {
      assert (a + b)[0] == a[0] && (a + b)[1..] == a[1..] + b;
      DataJoin(a[1..], b);
    }
  }

  lemma {:induction false} QuietIsEmpty(frames: seq<Frame>)
    ensures Quiet(frames) <==> DataOf(frames) == []
    decreases |frames|
  {
    if frames != [] {
      QuietIsEmpty(frames[1..]);
      assert forall i :: 0 < i < |frames| ==> frames[i] == frames[1..][i - 1];
      assert Matches(frames[0]) ==> |Payload(frames[0])| > 0;
    }
  }

  lemma {:induction false} Split(frames: seq<Frame>, n: nat)
    requires n <= |frames|
    ensures DataOf(frames) == DataOf(frames[..n]) + DataOf(frames[n..])
    ensures Quiet(frames[..n]) <==> DataOf(frames[..n]) == []
  {
    assert frames == frames[..n] + frames[n..];
    DataJoin(frames[..n], frames[n..]);
    QuietIsEmpty(frames[..n]);
  }

  lemma {:induction false} QuietDelivery(s: Rx, frames: seq<Frame>)
    requires Sized(s) && Quiet(frames)
    ensures DeliverAll(s, frames) == s
    decreases |frames|
  {
    if frames != [] {
      assert !Matches(frames[0]);
      QuietDelivery(s, frames[1..]);
    }
  }

  lemma {:induction false} QuietPause(s: Rx, line: Line)
    requires Sized(s) && Quiet(line.frames[..Arriving(line)])
    ensures Pause(s, line) == (s, AfterPause(line)) && DataOf(AfterPause(line).frames) == DataOf(line.frames)
  {
    QuietDelivery(s, line.frames[..Arriving(line)]);
    Split(line.frames, Arriving(line));
  }

  // ---- with the right pace the turn delivers ---------------------------------------------------------

  // The wait for the header ends with its frame.
  lemma {:induction false} HeaderAwaited(s: Rx, frames: seq<Frame>)
    requires Sized(s) && !HasByte(s) && HeaderAt(frames) < |frames| && HasByte(ReceiveFrame(s, frames[HeaderAt(frames)]))
    ensures Await(s, frames) == (ReceiveFrame(s, frames[HeaderAt(frames)]), frames[HeaderAt(frames) + 1..])
    decreases |frames|
  {
    hide HasByte, Matches;
    var h, frame := HeaderAt(frames), frames[0];
    if Matches(frame) {
      AwaitNow(ReceiveFrame(s, frame), frames[1..]);
    } else {
      Ignored(s, frame);
      assert frames[1..][h - 1] == frames[h];
      HeaderAwaited(s, frames[1..]);
    }
  }

  lemma {:induction false} AwaitNow(s: Rx, frames: seq<Frame>)
    requires Sized(s) && HasByte(s)
    ensures Await(s, frames) == (s, frames)
  {
  }

  lemma {:induction false} Ignored(s: Rx, frame: Frame)
    requires Sized(s) && !Matches(frame)
    ensures ReceiveFrame(s, frame) == s
  {
  }

  // The header, without its quiet company.
  lemma {:induction false} HeaderAfter(frames: seq<Frame>, n: nat)
    requires n <= HeaderAt(frames) < |frames|
    ensures HeaderAt(frames[n..]) == HeaderAt(frames) - n
    decreases n
  {
    if n == 0 {
      assert frames[0..] == frames;
    } else {
      assert frames[1..][n - 1..] == frames[n..];
      assert !Matches(frames[0]) by { assert frames[..HeaderAt(frames)][0] == frames[0]; }
      HeaderAfter(frames[1..], n - 1);
    }
  }

  // The frames before the header leave the receiver as it is, and so do quiet ones after it.
  lemma {:induction false} HeaderDelivered(s: Rx, frames: seq<Frame>, n: nat)
    requires Sized(s) && HeaderAt(frames) < n <= |frames| && Quiet(frames[HeaderAt(frames) + 1..n])
    ensures DeliverAll(s, frames[..n]) == ReceiveFrame(s, frames[HeaderAt(frames)])
  {
    hide Matches, ReceiveFrame, Quiet, HeaderAt, Sized;
    var h := HeaderAt(frames);
    QuietDelivery(s, frames[..h]);
    var rest := frames[h..n];
    assert frames[..n] == frames[..h] + rest && rest[0] == frames[h] && rest[1..] == frames[h + 1..n];
    DeliverJoin(s, frames[..h], rest);
    QuietDelivery(ReceiveFrame(s, frames[h]), rest[1..]);
  }

  lemma {:induction false} NothingDelivered(s: Rx, frames: seq<Frame>, n: nat)
    requires Sized(s) && n <= HeaderAt(frames)
    ensures DeliverAll(s, frames[..n]) == s
  {
    hide Matches, Quiet, HeaderAt;
    var before := frames[..HeaderAt(frames)];
    assert before[..n] == frames[..n];
    QuietStart(before, n);
    QuietDelivery(s, frames[..n]);
  }

  // The first read of a turn, where only the header matches among the frames that come for it.
  lemma {:induction false} FirstRead(s: Rx, line: Line)
    requires Sized(s) && !HasByte(s) && HeaderAt(line.frames) < |line.frames|
    requires Quiet(line.frames[HeaderAt(line.frames) + 1..FirstTaken(line)])
    requires HasByte(ReceiveFrame(s, line.frames[HeaderAt(line.frames)]))
    ensures var waited := ReceiveFrame(s, line.frames[HeaderAt(line.frames)]);
      ReadFrom(s, line) == Reading(true, ReadByte(waited).1, ReadByte(waited).0, AfterFirst(line))
  {
    hide HasByte, Matches, ReadByte, Quiet, ReceiveFrame, DeliverAll, HeaderAt, Await, Sized;
    var frames, n, h := line.frames, Arriving(line), HeaderAt(line.frames);
    if n <= h {
      NothingDelivered(s, frames, n);
      HeaderAfter(frames, n);
      assert frames[n..][h - n] == frames[h] && frames[n..][h - n + 1..] == frames[h + 1..];
      HeaderAwaited(s, frames[n..]);
    } else {
      HeaderDelivered(s, frames, n);
      AwaitNow(ReceiveFrame(s, frames[h]), frames[n..]);
    }
  }

  lemma {:induction false} QuietStart(frames: seq<Frame>, n: nat)
    requires Quiet(frames) && n <= |frames|
    ensures Quiet(frames[..n])
  {
  }

  // While the header is being read, the byte is there, the read advances, and header mode goes on
  // until the size is known.
  lemma {:induction false} ReadNow(s: Rx, phase: Phase, size: nat, line: Line, k: nat) returns (r: Reading)
    requires Downloading(Sys(s, phase), true, size, []) && Reads(phase) && size < Pow256(8) && Calm(line, k + 1)
    ensures Sized(s) && !s.hdrDone && s.hdrRead < HEADER_BYTES
    ensures r == ReadFrom(s, line) && r.ok && r.rx.hdrRead == s.hdrRead + 1
    ensures Calm(r.rest, k) && DataOf(r.rest.frames) == DataOf(line.frames)
    ensures Downloading(Sys(r.rx, TakeByte(phase, r.b)), true, size, [])
  {
    hide Header, PhaseAfter, Encode, DeliverAll, DataOf, Matches;
    r := ReadFrom(s, line);
    ReadAdvances(Sys(s, phase), size);
    QuietPause(s, line);
    ReadAtOnce(s, line);
    NotYet(s, phase, size);
    assert Apply(Sys(s, phase), Step) == Sys(r.rx, TakeByte(phase, r.b));
  }

  lemma {:induction false} NotYet(s: Rx, phase: Phase, size: nat)
    requires Downloading(Sys(s, phase), true, size, []) && Reads(phase) && size < Pow256(8)
    ensures Sized(s) && !s.hdrDone && s.hdrRead < HEADER_BYTES
  {
    hide Header, Encode;
    HeaderPhase(size);
  }

  lemma {:induction false} MagicFound(s: Rx, magic: nat, size: nat, line: Line)
    requires Downloading(Sys(s, Unlocking(magic)), true, size, []) && size < Pow256(8)
    requires s.hdrRead <= HEADER_BYTES && Calm(line, 13 - s.hdrRead)
    ensures Sized(s)
    ensures var o := UnlockRun(s, magic, line);
      && o.ok && Downloading(Sys(o.rx, Sizing(0, 0)), true, size, [])
      && o.rx.hdrRead <= HEADER_BYTES && Calm(o.rest, 13 - o.rx.hdrRead) && DataOf(o.rest.frames) == DataOf(line.frames)
    decreases HEADER_BYTES - s.hdrRead
  {
    hide Downloading, ReadFrom, UnlockRun, ShiftIn, Pow256, Calm, DataOf;
    NotYet(s, Unlocking(magic), size);
    var r := ReadNow(s, Unlocking(magic), size, line, 12 - s.hdrRead);
    UnlockUnfold(s, magic, line);
    if ShiftIn(magic, r.b) != MAGIC_NUMBER {
      MagicFound(r.rx, ShiftIn(magic, r.b), size, r.rest);
    }
  }

  lemma {:induction false} SizeFound(s: Rx, i: nat, acc: nat, size: nat, line: Line)
    requires Downloading(Sys(s, Sizing(i, acc)), true, size, []) && size < Pow256(8) && i < 8
    requires s.hdrRead <= HEADER_BYTES && Calm(line, 13 - s.hdrRead)
    ensures Sized(s)
    ensures var o := SizeRun(s, i, acc, line);
      && o.ok && o.value == size && Downloading(Sys(o.rx, Granted(size)), true, size, [])
      && o.rx.hdrRead <= HEADER_BYTES && Calm(o.rest, 13 - o.rx.hdrRead) && DataOf(o.rest.frames) == DataOf(line.frames)
    decreases 8 - i
  {
    hide Downloading, ReadFrom, SizeRun, AddByte, Pow256, Calm, DataOf;
    NotYet(s, Sizing(i, acc), size);
    var r := ReadNow(s, Sizing(i, acc), size, line, 12 - s.hdrRead);
    SizeUnfold(s, i, acc, line);
    if i < 7 {
      SizeFound(r.rx, i + 1, AddByte(acc, r.b, i), size, r.rest);
    } else {
      GrantedSize(r.rx, AddByte(acc, r.b, i), size);
      SizeDone(r.rx, AddByte(acc, r.b, i), r.rest);
    }
  }

  lemma {:induction false} GrantedSize(s: Rx, decoded: nat, size: nat)
    requires Downloading(Sys(s, Granted(decoded)), true, size, []) && size < Pow256(8)
    ensures decoded == size && Sized(s)
  {
    hide Encode;
    HeaderPhase(size);
  }

  lemma {:induction false} AllLoaded(s: Rx, size: nat, data: seq<byte>, line: Line)
    requires Downloading(Sys(s, Loading(size)), true, size, data) && size <= |data + DataOf(line.frames)|
    ensures Sized(s)
    ensures var o := LoadRun(s, size, line);
      && o.ok && o.value == size && o.rx.dest.Some? && size <= |o.rx.dest.value| && o.rx.received == size && o.rx.hdrDone && o.rx.expected == size
      && o.rx.dest.value[..size] == (data + DataOf(line.frames))[..size]
    decreases |line.frames|
  {
    hide Payload, ReceiveFrame, LoadRun;
    LoadUnfold(s, size, line);
    var frames := line.frames;
    if s.received >= size {
      assert data[..size] == (data + DataOf(frames))[..size];
    } else {
      assert frames != [];
      var next, rest := ReceiveFrame(s, frames[0]), line.(frames := frames[1..]);
      if Matches(frames[0]) {
        DataArrives(Sys(s, Loading(size)), size, data, frames[0]);
        assert data + Payload(frames[0]) + DataOf(frames[1..]) == data + DataOf(frames);
        AllLoaded(next, size, data + Payload(frames[0]), rest);
      } else {
        Ignored(s, frames[0]);
        assert DataOf(frames) == DataOf(frames[1..]);
        AllLoaded(next, size, data, rest);
      }
    }
  }

  // After the first read the header is there, one byte of it read.
  lemma {:induction false} HeaderTaken(s: Rx, line: Line, size: nat)
    requires Sized(s) && Sends(line.frames, size) && Paced(line) && size < Pow256(8)
    ensures var r := ReadFrom(ResetHeader(s), line);
      && r.ok && r.rest == AfterFirst(line) && r.rx.hdrRead == 1
      && Downloading(Sys(r.rx, TakeByte(Unlocking(0), r.b)), true, size, [])
      && DataOf(r.rest.frames) == DataSent(line.frames)
  {
    hide Matches, Header, PhaseAfter, Calm, ReceiveFrame, DataOf, Quiet, ReadFrom, HasByte, ReadByte, Downloading, Arriving;
    var s0, h, frames := ResetHeader(s), HeaderAt(line.frames), line.frames;
    HeaderThere(s0, frames[h], size);
    FirstRead(s0, line);
    Split(frames[h + 1..], FirstTaken(line) - h - 1);
    assert frames[h + 1..][..FirstTaken(line) - h - 1] == frames[h + 1..FirstTaken(line)];
    assert frames[h + 1..][FirstTaken(line) - h - 1..] == frames[FirstTaken(line)..];
  }

  lemma {:induction false} HeaderThere(s: Rx, frame: Frame, size: nat)
    requires Sized(s) && s == ResetHeader(s) && size < Pow256(8)
    requires Matches(frame) && |Payload(frame)| >= HEADER_BYTES && Payload(frame)[..HEADER_BYTES] == Header(size)
    ensures var header := ReceiveFrame(s, frame);
      && !HasByte(s) && HasByte(header) && header.hdrRead == 0 && !header.hdrDone
      && Downloading(Sys(ReadByte(header).0, TakeByte(Unlocking(0), ReadByte(header).1)), true, size, [])
      && ReadByte(header).0.hdrRead == 1
  {
    hide Header, PhaseAfter, Encode;
    var header := ReceiveFrame(s, frame);
    assert Downloading(Sys(s, Unlocking(0)), false, size, []);
    HeaderArrives(Sys(s, Unlocking(0)), size, frame);
    assert Apply(Sys(s, Unlocking(0)), Arrive(frame)) == Sys(header, Unlocking(0));
    ReadAdvances(Sys(header, Unlocking(0)), size);
    NotYet(header, Unlocking(0), size);
  }

  lemma {:induction false} HeaderIs(s: Rx, line: Line)
    requires Sized(s)
    ensures var unlocked := UnlockRun(ResetHeader(s), 0, line);
      unlocked.ok ==> HeaderRun(s, line) == SizeRun(unlocked.rx, 0, 0, unlocked.rest)
  {
    hide UnlockRun, SizeRun;
  }

  lemma {:induction false} CalmOne(o: Outcome)
    requires o.rx.hdrRead <= HEADER_BYTES && Calm(o.rest, 13 - o.rx.hdrRead)
    ensures Calm(o.rest, 1)
  {
  }

  // Magic and size are read, and the last pause is quiet too.
  lemma {:induction false} SizeRead(s: Rx, line: Line, size: nat) returns (o: Outcome)
    requires Sized(s) && Sends(line.frames, size) && Paced(line) && size < Pow256(8)
    ensures o == HeaderRun(s, line) && o.ok && o.value == size && Downloading(Sys(o.rx, Granted(size)), true, size, [])
    ensures Calm(o.rest, 1) && DataOf(o.rest.frames) == DataSent(line.frames)
  {
    hide *;
    var unlocked := HeaderUnlocks(s, line, size);
    SizeFound(unlocked.rx, 0, 0, size, unlocked.rest);
    o := HeaderRun(s, line);
    HeaderIs(s, line);
    CalmOne(o);
  }

  // Whatever the receiver did before: with such frames at such a pace the turn ends, with the size and
  // the bytes that were sent.
  lemma {:induction false} PollDelivers(s: Rx, line: Line, size: nat)
    requires Sized(s) && Sends(line.frames, size) && Paced(line) && size < Pow256(8)
    ensures var o := PollRun(s, line);
      && o.ok && o.value == size && o.rx.hdrDone && o.rx.received == size == o.rx.expected && size <= |DataSent(line.frames)|
      && o.rx.dest.Some? && size <= |o.rx.dest.value| && o.rx.dest.value[..size] == DataSent(line.frames)[..size]
  {
    hide Downloading, HeaderRun, LoadRun, DataOf, DataSent, HeaderAt, Pow256, NumPages, Zeros, Quiet, Paced, DeliverAll,
         AfterPause;
    var sized := SizeRead(s, line, size);
    QuietPause(sized.rx, sized.rest);
    EnoughSent(line, size);
    PayloadLoaded(sized.rx, size, AfterPause(sized.rest));
  }

  lemma {:induction false} EnoughSent(line: Line, size: nat)
    requires Sends(line.frames, size)
    ensures size <= |DataSent(line.frames)|
  {
  }

  lemma {:induction false} PayloadLoaded(s: Rx, size: nat, line: Line)
    requires Downloading(Sys(s, Granted(size)), true, size, []) && size <= |DataOf(line.frames)| && size < Pow256(8)
    ensures Sized(s)
    ensures var o := PayloadRun(s, size, line);
      && o.ok && o.value == size && o.rx.dest.Some? && size <= |o.rx.dest.value| && o.rx.received == size && o.rx.hdrDone && o.rx.expected == size
      && o.rx.dest.value[..size] == DataOf(line.frames)[..size]
  {
    hide Downloading, LoadRun, DataOf, Pow256, NumPages, Zeros;
    var mem := Zeros(NumPages(size) * BLOCK_SIZE);
    PagesHold(size);
    GrantSets(Sys(s, Granted(size)), true, size, [], mem);
    assert Sized(s) by { GrantedSize(s, size, size); }
    assert [] + DataOf(line.frames) == DataOf(line.frames);
    AllLoaded(SetDest(s, mem, size), size, [], line);
  }

  lemma {:induction false} HeaderUnlocks(s: Rx, line: Line, size: nat) returns (o: Outcome)
    requires Sized(s) && Sends(line.frames, size) && Paced(line) && size < Pow256(8)
    ensures o == UnlockRun(ResetHeader(s), 0, line)
    ensures o.ok && Downloading(Sys(o.rx, Sizing(0, 0)), true, size, [])
    ensures o.rx.hdrRead <= HEADER_BYTES && Calm(o.rest, 13 - o.rx.hdrRead) && DataOf(o.rest.frames) == DataSent(line.frames)
  {
    hide Downloading, UnlockRun, DataOf, DataSent, HeaderAt, Pow256, Quiet, Matches, ReadFrom, ShiftIn, Header, Calm, Sends;
    o := UnlockRun(ResetHeader(s), 0, line);
    HeaderTaken(s, line, size);
    UnlockUnfold(ResetHeader(s), 0, line);
    var r := ReadFrom(ResetHeader(s), line);
    OneByteShort(r.b);
    MagicFound(r.rx, ShiftIn(0, r.b), size, r.rest);
  }

  lemma {:induction false} OneByteShort(b: byte)
    ensures ShiftIn(0, b) != MAGIC_NUMBER
  {
  }
}
