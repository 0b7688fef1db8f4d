/** Without that pace a turn does not deliver: what came too early is missing at the end. */
module PacingExact {
  import opened Bytes
  import opened Numbers
  import opened Wrappers
  import opened PmmSpec
  import opened NetworkSpec
  import opened LoaderSpec
  import opened LoaderProofs
  import opened PollTurn
  import opened Pacing

  // ---- lines further on --------------------------------------------------------------------------

  // k pauses on, with no frame taken in between.
  function After(line: Line, k: nat): Line
    decreases k
  {
    if k == 0 then line else After(AfterPause(line), k - 1)
  }

  predicate Suffix(a: seq<Frame>, b: seq<Frame>) {
    |a| <= |b| && a == b[|b| - |a|..]
  }

  // b has the same pauses to come as a, and no more frames.
  predicate Behind(b: Line, a: Line) {
    b.early == a.early && Suffix(b.frames, a.frames)
  }

  lemma {:induction false} SuffixTrans(a: seq<Frame>, b: seq<Frame>, c: seq<Frame>)
    requires Suffix(a, b) && Suffix(b, c)
    ensures Suffix(a, c)
  {
  }

  lemma {:induction false} PauseBehind(b: Line, a: Line)
    requires Behind(b, a)
    ensures Behind(AfterPause(b), AfterPause(a)) && Suffix(AfterPause(a).frames, a.frames)
  {
    var x, y := AfterPause(b).frames, AfterPause(a).frames;
    assert |x| <= |y|;
    assert x == a.frames[|a.frames| - |x|..];
  }

  lemma {:induction false} AfterBehind(b: Line, a: Line, k: nat)
    requires Behind(b, a)
    ensures Behind(After(b, k), After(a, k))
    decreases k
  {
    hide Behind, AfterPause;
    if k > 0 {
      PauseBehind(b, a);
      AfterBehind(AfterPause(b), AfterPause(a), k - 1);
    }
  }

  lemma {:induction false} AfterJoin(line: Line, a: nat, b: nat)
    ensures After(line, a + b) == After(After(line, a), b)
    decreases a
  {
    if a > 0 {
      AfterJoin(AfterPause(line), a - 1, b);
    }
  }

  lemma {:induction false} AfterSuffix(line: Line, k: nat)
    ensures Suffix(After(line, k).frames, line.frames)
    decreases k
  {
    hide AfterPause;
    if k > 0 {
      PauseBehind(line, line) by { BehindRefl(line); }
      AfterSuffix(AfterPause(line), k - 1);
      SuffixTrans(After(line, k).frames, AfterPause(line).frames, line.frames);
    }
  }

  lemma {:induction false} BehindRefl(line: Line)
    ensures Behind(line, line)
  {
  }

  lemma {:induction false} BehindTrans(c: Line, b: Line, a: Line)
    requires Behind(c, b) && Behind(b, a)
    ensures Behind(c, a)
  {
  }

  // Fewer frames hold no more data.
  lemma {:induction false} SuffixData(a: seq<Frame>, b: seq<Frame>)
    requires Suffix(a, b)
    ensures |DataOf(a)| <= |DataOf(b)|
  {
    hide DataOf;
    Split(b, |b| - |a|);
  }

  // Pauses that let no data through are calm.
  lemma {:induction false} CalmExact(line: Line, k: nat)
    ensures |DataOf(After(line, k).frames)| == |DataOf(line.frames)| <==> Calm(line, k)
    ensures |DataOf(After(line, k).frames)| <= |DataOf(line.frames)|
    decreases k
  {
    hide DataOf, Quiet;
    if k > 0 {
      var n := Arriving(line);
      Split(line.frames, n);
      CalmExact(AfterPause(line), k - 1);
    }
  }

  // ---- what a turn takes at least ------------------------------------------------------------------

  lemma {:induction false} ReadBehind(s: Rx, line: Line)
    requires Sized(s)
    ensures Behind(ReadFrom(s, line).rest, After(line, 1))
  {
    hide Await, DeliverAll;
    var (paused, left) := Pause(s, line);
    assert left == AfterPause(line) == After(line, 1);
    AwaitIsLeast(paused, left.frames);
  }

  // One read more, and then k more pauses.
  lemma {:induction false} OneReadMore(line: Line, next: Line, end: Line, k: nat)
    requires Behind(next, After(line, 1)) && Behind(end, After(next, k))
    ensures Behind(end, After(line, k + 1))
  {
    hide Behind, After;
    AfterBehind(next, After(line, 1), k);
    AfterJoin(line, 1, k);
    assert 1 + k == k + 1;
    BehindTrans(end, After(next, k), After(After(line, 1), k));
  }

  // With j bytes read, none of the first zero so far, the magic takes 4 - j reads at least.
  lemma {:induction false} UnlockBehind(s: Rx, magic: nat, line: Line, j: nat) returns (k: nat)
    requires Sized(s) && j <= 4 && (j < 4 ==> magic < Pow256(j)) && UnlockRun(s, magic, line).ok
    ensures k + j >= 4 && Behind(UnlockRun(s, magic, line).rest, After(line, k))
    decreases |line.frames|, if s.hdrDone then 0 else HEADER_BYTES - s.hdrRead
  {
    hide ReadFrom, UnlockRun, After, Behind, ShiftIn, Pow256;
    if s.hdrDone {
      UnlockDone(s, magic, line);
    }
    UnlockUnfold(s, magic, line);
    ReadTakes(s, line);
    ReadBehind(s, line);
    var r := ReadFrom(s, line);
    ShiftBound(magic, r.b, j);
    if ShiftIn(magic, r.b) == MAGIC_NUMBER {
      k := 1;
    } else {
      var j' := if j < 4 then j + 1 else 4;
      var m := UnlockBehind(r.rx, ShiftIn(magic, r.b), r.rest, j');
      OneReadMore(line, r.rest, UnlockRun(s, magic, line).rest, m);
      k := m + 1;
    }
  }

  lemma {:induction false} ShiftBound(magic: nat, b: byte, j: nat)
    requires j <= 4 && (j < 4 ==> magic < Pow256(j))
    ensures j < 3 ==> ShiftIn(magic, b) < Pow256(j + 1) && ShiftIn(magic, b) != MAGIC_NUMBER
  {
    if j < 3 {
      SmallPowers();
      assert magic * 256 + b as nat < 256 * Pow256(j);
    }
  }

  lemma {:induction false} SmallPowers()
    ensures Pow256(0) == 1 && Pow256(1) == 256 && Pow256(2) == 0x1_0000 && Pow256(3) == 0x100_0000
  {
  }

  lemma {:induction false} SizeBehind(s: Rx, i: nat, size: nat, line: Line)
    requires Sized(s) && i <= 8 && SizeRun(s, i, size, line).ok
    ensures Behind(SizeRun(s, i, size, line).rest, After(line, 8 - i))
    decreases 8 - i
  {
    hide ReadFrom, SizeRun, After, Behind, AddByte;
    if i == 8 {
      SizeDone(s, size, line);
      BehindNow(line);
    } else {
      SizeUnfold(s, i, size, line);
      ReadBehind(s, line);
      var r := ReadFrom(s, line);
      SizeBehind(r.rx, i + 1, AddByte(size, r.b, i), r.rest);
      OneReadMore(line, r.rest, SizeRun(s, i, size, line).rest, 7 - i);
    }
  }

  lemma {:induction false} BehindNow(line: Line)
    ensures Behind(line, After(line, 0))
  {
  }

  // The first read takes the header, or does not come to an end.
  lemma {:induction false} FirstBehind(s: Rx, line: Line)
    requires Sized(s) && !HasByte(s) && HeaderAt(line.frames) < |line.frames| && ReadFrom(s, line).ok
    ensures Behind(ReadFrom(s, line).rest, AfterFirst(line))
  {
    hide ReceiveFrame, HasByte, DeliverAll, Await, ReadByte, HeaderAt, Sized;
    var frames, n, h := line.frames, Arriving(line), HeaderAt(line.frames);
    var m := ReadCame(s, line);
    if m <= h {
      assert frames[..h][..m] == frames[..m];
      QuietStart(frames[..h], m);
      QuietDelivery(s, frames[..m]);
    }
  }

  // The frames a read took brought a byte.
  lemma {:induction false} ReadCame(s: Rx, line: Line) returns (m: nat)
    requires Sized(s) && ReadFrom(s, line).ok
    ensures Arriving(line) <= m <= |line.frames| && ReadFrom(s, line).rest == Line(line.frames[m..], Later(line.early))
    ensures HasByte(DeliverAll(s, line.frames[..m]))
  {
    hide ReceiveFrame, HasByte, DeliverAll, Await, ReadByte;
    var frames, n := line.frames, Arriving(line);
    var (paused, left) := Pause(s, line);
    AwaitIsLeast(paused, left.frames);
    var r := ReadFrom(s, line);
    var k := |left.frames| - |r.rest.frames|;
    m := n + k;
    DeliverJoin(s, frames[..n], left.frames[..k]);
    assert frames[..n] + left.frames[..k] == frames[..m];
  }

  lemma {:induction false} LoadNeeds(s: Rx, size: nat, line: Line)
    requires Sized(s) && LoadRun(s, size, line).ok
    ensures size <= s.received + |DataOf(line.frames)|
    decreases |line.frames|
  {
    hide LoadRun;
    LoadUnfold(s, size, line);
    if s.received < size {
      LoadNeeds(ReceiveFrame(s, line.frames[0]), size, line.(frames := line.frames[1..]));
    }
  }

  // When a turn ends, all it has received has come after twelve pauses at least, counted from the
  // first read.
  lemma {:induction false} TurnNeeds(s: Rx, line: Line)
    requires Sized(s) && HeaderAt(line.frames) < |line.frames| && PollRun(s, line).ok
    ensures PollRun(s, line).value <= |DataOf(After(AfterFirst(line), 12).frames)|
  {
    hide UnlockRun, SizeRun, LoadRun, ReadFrom, ReadByte, After, Behind, DataOf, HeaderAt, AfterFirst, Zeros, NumPages, AfterPause,
         DeliverAll, ShiftIn, Pow256;
    var s0 := ResetHeader(s);
    UnlockUnfold(s0, 0, line);
    var r := ReadFrom(s0, line);
    FirstBehind(s0, line);
    OneByteShort(r.b);
    OneByteSmall(r.b);
    var k := UnlockBehind(r.rx, ShiftIn(0, r.b), r.rest, 1);
    var unlocked := UnlockRun(s0, 0, line);
    SizeBehind(unlocked.rx, 0, 0, unlocked.rest);
    var sized := HeaderRun(s, line);
    TurnBehind(AfterFirst(line), r.rest, unlocked.rest, sized.rest, k);
    PauseRest(sized.rx, sized.rest);
    LoadedSize(Pause(sized.rx, sized.rest).0, sized.value, AfterPause(sized.rest));
  }

  lemma {:induction false} OneByteSmall(b: byte)
    ensures ShiftIn(0, b) < Pow256(1)
  {
    SmallPowers();
  }

  lemma {:induction false} LoadedSize(s: Rx, size: nat, line: Line)
    requires Sized(s) && PayloadRun(s, size, line).ok
    ensures PayloadRun(s, size, line).value == size <= |DataOf(line.frames)|
  {
    hide LoadRun, DataOf, Zeros, NumPages;
    PagesHold(size);
    var s1 := SetDest(s, Zeros(NumPages(size) * BLOCK_SIZE), size);
    LoadNeeds(s1, size, line);
    LoadValue(s1, size, line);
  }

  lemma {:induction false} LoadValue(s: Rx, size: nat, line: Line)
    requires Sized(s)
    ensures LoadRun(s, size, line).value == size
    decreases |line.frames|
  {
    hide ReceiveFrame;
    if s.received < size && line.frames != [] {
      LoadValue(ReceiveFrame(s, line.frames[0]), size, line.(frames := line.frames[1..]));
    }
  }

  lemma {:induction false} TurnBehind(first: Line, a: Line, b: Line, c: Line, k: nat)
    requires Behind(a, first) && Behind(b, After(a, k)) && k >= 3 && Behind(c, After(b, 8))
    ensures |DataOf(AfterPause(c).frames)| <= |DataOf(After(first, 12).frames)|
  {
    hide Behind, DataOf, AfterPause, Suffix;
    AfterBehind(b, After(a, k), 8);
    AfterJoin(a, k, 8);
    BehindTrans(c, After(b, 8), After(a, k + 8));
    AfterBehind(a, first, k + 8);
    BehindTrans(c, After(a, k + 8), After(first, k + 8));
    PauseBehind(c, After(first, k + 8));
    AfterJoin(first, k + 8, 1);
    assert After(After(first, k + 8), 1) == AfterPause(After(first, k + 8)) by { OnePause(After(first, k + 8)); }
    AfterJoin(first, 12, k - 3);
    assert 12 + (k - 3) == k + 8 + 1;
    AfterSuffix(After(first, 12), k - 3);
    BehindSuffix(AfterPause(c), After(first, k + 9));
    SuffixData(AfterPause(c).frames, After(first, k + 9).frames);
    SuffixData(After(first, k + 9).frames, After(first, 12).frames);
  }

  lemma {:induction false} OnePause(line: Line)
    ensures After(line, 1) == AfterPause(line)
  {
    assert After(AfterPause(line), 0) == AfterPause(line);
  }

  lemma {:induction false} BehindSuffix(b: Line, a: Line)
    requires Behind(b, a)
    ensures Suffix(b.frames, a.frames)
  {
  }

  // If after twelve pauses all the data sent is still to come, none of it came too early.
  lemma {:induction false} PacedExact(line: Line, size: nat)
    requires HeaderAt(line.frames) < |line.frames| && |DataSent(line.frames)| == size
    ensures Paced(line) <==> size <= |DataOf(After(AfterFirst(line), 12).frames)|
  {
    hide DataOf, Quiet, Calm, Matches, After;
    var frames, h, t := line.frames, HeaderAt(line.frames), FirstTaken(line);
    CalmExact(AfterFirst(line), 12);
    Split(frames[h + 1..], t - h - 1);
    assert frames[h + 1..][..t - h - 1] == frames[h + 1..t];
    assert frames[h + 1..][t - h - 1..] == frames[t..];
  }

  // A sender that sends a header and then exactly the data it announces is served if and only if its
  // frames keep the pace.
  lemma {:induction false} PollExact(s: Rx, line: Line, size: nat)
    requires Sized(s) && Sends(line.frames, size) && |DataSent(line.frames)| == size < Pow256(8)
    ensures PollRun(s, line).ok && PollRun(s, line).value == size <==> Paced(line)
  {
    hide PollRun, DataOf, DataSent, Paced, AfterFirst, HeaderAt, Header, Matches, After, Pow256;
    PacedExact(line, size);
    if Paced(line) {
      PollDelivers(s, line, size);
    } else if PollRun(s, line).ok {
      TurnNeeds(s, line);
    }
  }
}
