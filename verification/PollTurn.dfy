/** The POLLING turn as a function of the frames that come, and what it delivers. */
module PollTurn {
  import opened Bytes
  import opened Numbers
  import opened Wrappers
  import opened PmmSpec
  import opened NetworkSpec
  import opened LoaderSpec
  import opened LoaderProofs

  // Pages for a payload: size / 2 MB, and one more for a remainder.
  function NumPages(size: nat): nat {
    size / BLOCK_SIZE + if size % BLOCK_SIZE != 0 then 1 else 0
  }

  function Zeros(n: nat): (s: seq<byte>)
    ensures |s| == n
  {
    seq(n, i => 0)
  }

  lemma {:induction false} PagesHold(size: nat)
    ensures size <= NumPages(size) * BLOCK_SIZE
  {
  }

  // Reset, magic and size. value is the size, once ok.
  function HeaderRun(s: Rx, line: Line): (o: Outcome)
    requires Sized(s)
    ensures Sized(o.rx)
  {
    var unlocked := UnlockRun(ResetHeader(s), 0, line);
    if !unlocked.ok then unlocked else SizeRun(unlocked.rx, 0, 0, unlocked.rest)
  }

  // Then pages of zeros, while frames may come, and the payload.
  function PollRun(s: Rx, line: Line): (o: Outcome)
    requires Sized(s)
    ensures Sized(o.rx)
  {
    var sized := HeaderRun(s, line);
    if !sized.ok then sized
    else
      var (paused, rest) := Pause(sized.rx, sized.rest);
      PayloadRun(paused, sized.value, rest)
  }

  // poll_payload, with the pages it is given.
  function PayloadRun(s: Rx, size: nat, line: Line): (o: Outcome)
    requires Sized(s)
    ensures Sized(o.rx)
  {
    PagesHold(size);
    LoadRun(SetDest(s, Zeros(NumPages(size) * BLOCK_SIZE), size), size, line)
  }

  // ---- the loops are runs of the loader's state machine ----------------------------------------------

  // The frames among the events, in order.
  function Arrivals(events: seq<Event>): seq<Frame> {
    if events == [] then []
    else (if events[0].Arrive? then [events[0].data] else []) + Arrivals(events[1..])
  }

  function ArriveAll(frames: seq<Frame>): seq<Event> {
    if frames == [] then [] else [Arrive(frames[0])] + ArriveAll(frames[1..])
  }

  lemma {:induction false} ArrivalsJoin(a: seq<Event>, b: seq<Event>)
    ensures Arrivals(a + b) == Arrivals(a) + Arrivals(b)
  {
    if a == [] {
      assert a + b == b;
    } else {
      assert (a + b)[0] == a[0] && (a + b)[1..] == a[1..] + b;
      ArrivalsJoin(a[1..], b);
    }
  }

  lemma {:induction false} ArriveAllRun(s: Sys, frames: seq<Frame>)
    requires Sized(s.rx)
    ensures RunEvents(s, ArriveAll(frames)) == s.(rx := DeliverAll(s.rx, frames))
    ensures Arrivals(ArriveAll(frames)) == frames
    decreases |frames|
  {
    hide ReceiveFrame;
    if frames != [] {
      var e := ArriveAll(frames);
      assert e[0] == Arrive(frames[0]) && e[1..] == ArriveAll(frames[1..]);
      ArriveAllRun(Apply(s, e[0]), frames[1..]);
    }
  }

  lemma {:induction false} RunJoin(s: Sys, a: seq<Event>, b: seq<Event>)
    requires Sized(s.rx)
    ensures RunEvents(s, a + b) == RunEvents(RunEvents(s, a), b)
    ensures Arrivals(a + b) == Arrivals(a) + Arrivals(b)
  {
    RunSplit(s, a, b);
    ArrivalsJoin(a, b);
  }

  // A blocking read: the frames that come before it and while it waits, then the loader's step.
  lemma {:induction false} ReadIsRun(s: Sys, line: Line) returns (events: seq<Event>)
    requires Sized(s.rx) && Reads(s.phase)
    ensures var r := ReadFrom(s.rx, line);
      && RunEvents(s, events) == Sys(r.rx, if r.ok then TakeByte(s.phase, r.b) else s.phase)
      && line.frames == Arrivals(events) + r.rest.frames
  {
    hide Await, TakeByte, ReceiveFrame, DeliverAll, RunEvents, Arrivals;
    var frames, n := line.frames, Arriving(line);
    var (paused, left) := Pause(s.rx, line);
    AwaitIsLeast(paused, left.frames);
    var r := ReadFrom(s.rx, line);
    var m := |left.frames| - |r.rest.frames|;
    DeliverJoin(s.rx, frames[..n], left.frames[..m]);
    assert frames[..n] + left.frames[..m] == frames[..n + m];
    ArriveAllRun(s, frames[..n + m]);
    events := ArriveAll(frames[..n + m]);
    if r.ok {
      RunJoin(s, ArriveAll(frames[..n + m]), [Step]);
      OneStep(RunEvents(s, ArriveAll(frames[..n + m])));
      events := ArriveAll(frames[..n + m]) + [Step];
    }
  }

  lemma {:induction false} OneStep(s: Sys)
    requires Sized(s.rx)
    ensures RunEvents(s, [Step]) == Apply(s, Step) && Arrivals([Step]) == []
  {
    assert [Step][1..] == [];
  }

  lemma {:induction false} NoEvents(s: Sys)
    requires Sized(s.rx)
    ensures RunEvents(s, []) == s && Arrivals([]) == []
  {
  }

  lemma {:induction false} UnlockIsRun(s: Rx, magic: nat, line: Line) returns (events: seq<Event>)
    requires Sized(s)
    ensures var o := UnlockRun(s, magic, line);
      && RunEvents(Sys(s, Unlocking(magic)), events) == Sys(o.rx, if o.ok then Sizing(0, 0) else Unlocking(o.value))
      && line.frames == Arrivals(events) + o.rest.frames
    decreases |line.frames|, if s.hdrDone then 0 else HEADER_BYTES - s.hdrRead
  {
    hide ReadFrom, RunEvents, Arrivals, UnlockRun, ShiftIn;
    if s.hdrDone {
      UnlockDone(s, magic, line);
      NoEvents(Sys(s, Unlocking(magic)));
      events := [];
    } else {
      UnlockUnfold(s, magic, line);
      ReadTakes(s, line);
      events := ReadIsRun(Sys(s, Unlocking(magic)), line);
      var r := ReadFrom(s, line);
      if r.ok && ShiftIn(magic, r.b) != MAGIC_NUMBER {
        var more := UnlockIsRun(r.rx, ShiftIn(magic, r.b), r.rest);
        RunJoin(Sys(s, Unlocking(magic)), events, more);
        events := events + more;
      }
    }
  }

  lemma {:induction false} SizeIsRun(s: Rx, i: nat, size: nat, line: Line) returns (events: seq<Event>)
    requires Sized(s) && i < 8
    ensures var o := SizeRun(s, i, size, line);
      && RunEvents(Sys(s, Sizing(i, size)), events).rx == o.rx
      && (o.ok ==> RunEvents(Sys(s, Sizing(i, size)), events).phase == Granted(o.value))
      && line.frames == Arrivals(events) + o.rest.frames
    decreases 8 - i
  {
    hide ReadFrom, RunEvents, Arrivals, SizeRun, AddByte;
    SizeUnfold(s, i, size, line);
    events := ReadIsRun(Sys(s, Sizing(i, size)), line);
    var r := ReadFrom(s, line);
    if r.ok {
      if i == 7 {
        SizeDone(r.rx, AddByte(size, r.b, i), r.rest);
      } else {
        var more := SizeIsRun(r.rx, i + 1, AddByte(size, r.b, i), r.rest);
        RunJoin(Sys(s, Sizing(i, size)), events, more);
        events := events + more;
      }
    }
  }

  lemma {:induction false} LoadIsRun(s: Rx, size: nat, line: Line) returns (events: seq<Event>)
    requires Sized(s)
    ensures var o := LoadRun(s, size, line);
      && RunEvents(Sys(s, Loading(size)), events) == Sys(o.rx, if o.ok then Loaded(size) else Loading(size))
      && o.value == size && line.frames == Arrivals(events) + o.rest.frames
    decreases |line.frames|
  {
    hide ReceiveFrame, RunEvents, Arrivals, LoadRun;
    LoadUnfold(s, size, line);
    if s.received >= size {
      OneStep(Sys(s, Loading(size)));
      events := [Step];
    } else if line.frames == [] {
      NoEvents(Sys(s, Loading(size)));
      events := [];
    } else {
      var more := LoadIsRun(ReceiveFrame(s, line.frames[0]), size, line.(frames := line.frames[1..]));
      OneArrival(Sys(s, Loading(size)), line.frames[0]);
      RunJoin(Sys(s, Loading(size)), [Arrive(line.frames[0])], more);
      events := [Arrive(line.frames[0])] + more;
    }
  }

  lemma {:induction false} OneArrival(s: Sys, frame: Frame)
    requires Sized(s.rx)
    ensures RunEvents(s, [Arrive(frame)]) == Apply(s, Arrive(frame)) && Arrivals([Arrive(frame)]) == [frame]
  {
    assert [Arrive(frame)][1..] == [];
  }

  lemma {:induction false} OneGrant(s: Sys, mem: seq<byte>)
    requires Sized(s.rx)
    ensures RunEvents(s, [Grant(mem)]) == Apply(s, Grant(mem)) && Arrivals([Grant(mem)]) == []
  {
    assert [Grant(mem)][1..] == [];
  }

  lemma {:induction false} PauseIsRun(s: Sys, line: Line) returns (events: seq<Event>)
    requires Sized(s.rx)
    ensures RunEvents(s, events) == s.(rx := Pause(s.rx, line).0)
    ensures line.frames == Arrivals(events) + AfterPause(line).frames
  {
    hide DeliverAll, RunEvents, Arrivals;
    ArriveAllRun(s, line.frames[..Arriving(line)]);
    events := ArriveAll(line.frames[..Arriving(line)]);
  }

  lemma {:induction false} HeaderIsRun(s: Rx, line: Line) returns (events: seq<Event>)
    requires Sized(s)
    ensures var o := HeaderRun(s, line);
      && RunEvents(Polling(s), events).rx == o.rx && line.frames == Arrivals(events) + o.rest.frames
      && (o.ok ==> RunEvents(Polling(s), events).phase == Granted(o.value))
  {
    hide RunEvents, Arrivals, UnlockRun, SizeRun;
    events := UnlockIsRun(ResetHeader(s), 0, line);
    var unlocked := UnlockRun(ResetHeader(s), 0, line);
    if unlocked.ok {
      var next := SizeIsRun(unlocked.rx, 0, 0, unlocked.rest);
      RunJoin(Polling(s), events, next);
      events := events + next;
    }
  }

  // The whole turn is one run of the state machine, over the frames it took.
  lemma {:induction false} PollIsRun(s: Rx, line: Line) returns (events: seq<Event>)
    requires Sized(s)
    ensures var o := PollRun(s, line);
      && RunEvents(Polling(s), events).rx == o.rx && line.frames == Arrivals(events) + o.rest.frames
      && (o.ok ==> RunEvents(Polling(s), events).phase == Loaded(o.value))
  {
    hide RunEvents, Arrivals, HeaderRun, LoadRun, NumPages, Zeros, Pause, AfterPause;
    events := HeaderIsRun(s, line);
    var sized := HeaderRun(s, line);
    if sized.ok {
      var next := PauseIsRun(Sys(sized.rx, Granted(sized.value)), sized.rest);
      RunJoin(Polling(s), events, next);
      events := events + next;
      var (paused, rest) := Pause(sized.rx, sized.rest);
      PauseRest(sized.rx, sized.rest);
      var mem := Zeros(NumPages(sized.value) * BLOCK_SIZE);
      PagesHold(sized.value);
      OneGrant(Sys(paused, Granted(sized.value)), mem);
      RunJoin(Polling(s), events, [Grant(mem)]);
      events := events + [Grant(mem)];
      next := LoadIsRun(SetDest(paused, mem, sized.value), sized.value, rest);
      RunJoin(Polling(s), events, next);
      events := events + next;
    }
  }

  lemma {:induction false} PauseRest(s: Rx, line: Line)
    requires Sized(s)
    ensures Pause(s, line).1 == AfterPause(line)
  {
  }

  // ---- nothing is stored outside a download --------------------------------------------------------

  // There is no destination, or it has all it expects.
  predicate Full(s: Rx) {
    s.dest.None? || s.received >= s.expected
  }

  // From s to t nothing was stored, and the destination is as full as it was.
  predicate Unstored(s: Rx, t: Rx) {
    t.dest == s.dest && t.received == s.received && t.expected == s.expected
  }

  lemma {:induction false} FullDelivery(s: Rx, frames: seq<Frame>)
    requires Sized(s) && Full(s)
    ensures Unstored(s, DeliverAll(s, frames)) && Full(DeliverAll(s, frames))
    decreases |frames|
  {
    hide Matches;
    if frames != [] {
      FullDelivery(ReceiveFrame(s, frames[0]), frames[1..]);
    }
  }

  lemma {:induction false} FullRead(s: Rx, line: Line)
    requires Sized(s) && Full(s)
    ensures Unstored(s, ReadFrom(s, line).rx) && Full(ReadFrom(s, line).rx)
  {
    hide ReceiveFrame, DeliverAll, Await;
    FullDelivery(s, line.frames[..Arriving(line)]);
    var (paused, left) := Pause(s, line);
    AwaitIsLeast(paused, left.frames);
    FullDelivery(paused, left.frames[..|left.frames| - |Await(paused, left.frames).1|]);
  }

  lemma {:induction false} FullUnlock(s: Rx, magic: nat, line: Line)
    requires Sized(s) && Full(s)
    ensures Unstored(s, UnlockRun(s, magic, line).rx) && Full(UnlockRun(s, magic, line).rx)
    decreases |line.frames|, if s.hdrDone then 0 else HEADER_BYTES - s.hdrRead
  {
    hide ReadFrom, UnlockRun, ShiftIn;
    if s.hdrDone {
      UnlockDone(s, magic, line);
    } else {
      UnlockUnfold(s, magic, line);
      ReadTakes(s, line);
      FullRead(s, line);
      var r := ReadFrom(s, line);
      if r.ok && ShiftIn(magic, r.b) != MAGIC_NUMBER {
        FullUnlock(r.rx, ShiftIn(magic, r.b), r.rest);
      }
    }
  }

  lemma {:induction false} FullSize(s: Rx, i: nat, size: nat, line: Line)
    requires Sized(s) && Full(s) && i <= 8
    ensures Unstored(s, SizeRun(s, i, size, line).rx) && Full(SizeRun(s, i, size, line).rx)
    decreases 8 - i
  {
    hide ReadFrom, AddByte;
    if i < 8 {
      FullRead(s, line);
      var r := ReadFrom(s, line);
      if r.ok {
        FullSize(r.rx, i + 1, AddByte(size, r.b, i), r.rest);
      }
    }
  }

  // From the end of one download to the next network_set_dest no frame stores anything, whenever it
  // comes: the pages of the last payload are long unmapped.
  lemma {:induction false} FullHeader(s: Rx, line: Line)
    requires Sized(s) && Full(s)
    ensures var o := HeaderRun(s, line);
      && Unstored(s, o.rx) && Full(o.rx)
      && Unstored(s, Pause(o.rx, o.rest).0)
  {
    hide UnlockRun, SizeRun, DeliverAll;
    FullUnlock(ResetHeader(s), 0, line);
    var unlocked := UnlockRun(ResetHeader(s), 0, line);
    if unlocked.ok {
      FullSize(unlocked.rx, 0, 0, unlocked.rest);
    }
    var o := HeaderRun(s, line);
    FullDelivery(o.rx, o.rest.frames[..Arriving(o.rest)]);
  }
}
