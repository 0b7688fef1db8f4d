/**
 The loader's loops for magic and size, at work on the receiver. Each is proved equal to its function
 in LoaderSpec. The loop of poll_payload is in Kernel, beside the memory it fills.
 */
module Loader {
  import opened Bytes
  import opened Wrappers
  import opened NetworkSpec
  import opened Network
  import opened LoaderSpec

  // unlock. Where the source would wait for ever, or go on reading zeros after the header bytes are
  // used up, this returns found false.
  method Unlock(rx: Receiver, line: Line) returns (found: bool, magic: nat, rest: Line)
    requires rx.Valid()
    modifies rx, rx.hdrBuf, rx.dest
    ensures rx.Valid() && rx.dest == old(rx.dest)
    ensures Outcome(found, magic, rx.State(), rest) == UnlockRun(old(rx.State()), 0, line)
  {
    hide ReadFrom, UnlockRun, ShiftIn;
    magic, rest, found := 0, line, false;
    while true
      invariant rx.Valid() && rx.dest == old(rx.dest)
      invariant UnlockRun(rx.State(), magic, rest) == UnlockRun(old(rx.State()), 0, line)
      decreases |rest.frames|, if rx.hdrDone then 0 else HEADER_BYTES - rx.hdrRead
    {
      if rx.hdrDone {
        UnlockDone(rx.State(), magic, rest);
        return;
      }
      UnlockUnfold(rx.State(), magic, rest);
      ReadTakes(rx.State(), rest);
      var ok, received, left := rx.ReadEthernet(rest);
      rest := left;
      if !ok {
        return;
      }
      magic := ShiftIn(magic, received);
      if magic == MAGIC_NUMBER {
        found := true;
        return;
      }
    }
  }

  // poll_payload_size: eight bytes, least significant first. ok is false where the source would
  // wait for ever.
  method PollPayloadSize(rx: Receiver, line: Line) returns (ok: bool, size: nat, rest: Line)
    requires rx.Valid()
    modifies rx, rx.hdrBuf, rx.dest
    ensures rx.Valid() && rx.dest == old(rx.dest)
    ensures Outcome(ok, size, rx.State(), rest) == SizeRun(old(rx.State()), 0, 0, line)
  {
    hide ReadFrom, SizeRun, AddByte;
    size, rest, ok := 0, line, true;
    var i := 0;
    while i < 8
      invariant i <= 8 && rx.Valid() && rx.dest == old(rx.dest)
      invariant SizeRun(rx.State(), i, size, rest) == SizeRun(old(rx.State()), 0, 0, line)
    {
      SizeUnfold(rx.State(), i, size, rest);
      var received;
      ok, received, rest := rx.ReadEthernet(rest);
      if !ok {
        return;
      }
      size := AddByte(size, received, i);
      i := i + 1;
    }
    ok := true;
    SizeDone(rx.State(), size, rest);
  }
}
