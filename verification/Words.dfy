/** The bytes of physical memory: eight to a word, least significant first. */
module Words {
  import opened Bytes
  import opened Paging

  const WORD: nat := 0x1_0000_0000_0000_0000

  // The 64 bits of an entry as a number, and back.
  function WordValue(e: Entry): (n: nat)
    ensures n < WORD
  {
    e.flags.low + 4096 * e.frame + 0x10_0000_0000_0000 * e.flags.high
  }

  function WordOf(n: nat): (e: Entry)
    requires n < WORD
    ensures WordValue(e) == n
  {
    Entry(n / 4096 % FRAME_LIMIT, Flags(n % 4096, n / 0x10_0000_0000_0000))
  }

  lemma {:induction false} WordIsEightBytes()
    ensures Pow256(8) == WORD
  {
    assert Pow256(4) == 0x1_0000_0000;
  }

  // Byte k of a word, and the word with it replaced.
  function ByteOf(e: Entry, k: nat): byte
    requires k < 8
  {
    Digit(WordValue(e), k)
  }

  function SetByte(e: Entry, k: nat, b: byte): Entry
    requires k < 8
  {
    WordIsEightBytes();
    SetDigitBound(WordValue(e), k, b, 8);
    WordOf(SetDigit(WordValue(e), k, b))
  }

  lemma {:induction false} SetByteBytes(e: Entry, k: nat, b: byte, j: nat)
    requires k < 8 && j < 8
    ensures ByteOf(SetByte(e, k, b), j) == if j == k then b else ByteOf(e, j)
  {
    hide WordValue, WordOf, Digit, SetDigit;
    SetDigitDigits(WordValue(e), k, b, j);
  }

  // Bits 0 and 7 of byte 0 are the present and the page-size bit.
  lemma {:induction false} LowestBit(e: Entry, b: byte)
    ensures Present(SetByte(e, 0, b)) <==> b % 2 == 1
    ensures Huge(SetByte(e, 0, b)) <==> b / 0x80 % 2 == 1
  {
    LowPart(e.flags.low, e.frame + FRAME_LIMIT * e.flags.high, b as nat);
  }

  lemma {:induction false} LowPart(low: nat, rest: nat, b: nat)
    requires low < 4096 && b < 256
    ensures (low + 4096 * rest) / 256 * 256 + b == low - low % 256 + b + 4096 * rest
    ensures (low - low % 256 + b) % 2 == b % 2 && (low - low % 256 + b) / 0x80 % 2 == b / 0x80 % 2
    ensures low - low % 256 + b < 4096
    ensures (low - low % 256 + b + 4096 * rest) % 4096 == low - low % 256 + b
  {
    var top := low / 256;
    assert (low + 4096 * rest) / 256 == top + 16 * rest;
    assert low - low % 256 == 256 * top;
    LowBits(top, b);
    LowRest(256 * top + b, rest);
  }

  lemma {:induction false} LowBits(top: nat, b: nat)
    ensures (256 * top + b) % 2 == b % 2 && (256 * top + b) / 0x80 % 2 == b / 0x80 % 2
  {
    assert 256 * top + b == 2 * (128 * top) + b;
    EvenAdds(128 * top, b);
    assert 256 * top + b == 0x80 * (2 * top) + b;
    WholeAdds(2 * top, b);
    EvenAdds(top, b / 0x80);
  }

  lemma {:induction false} EvenAdds(x: nat, b: nat)
    ensures (2 * x + b) % 2 == b % 2
  {
  }

  lemma {:induction false} WholeAdds(y: nat, b: nat)
    ensures (0x80 * y + b) / 0x80 == y + b / 0x80
  {
  }

  lemma {:induction false} LowRest(low: nat, rest: nat)
    requires low < 4096
    ensures (low + 4096 * rest) % 4096 == low
  {
  }

  // ---- memory ----------------------------------------------------------------------------------

  // The byte at an offset in a frame, and memory with it replaced.
  function ByteAt(mem: Mem, frame: nat, offset: nat): byte
    requires offset < 4096
  {
    ByteOf(Lookup(mem, frame, offset / 8), offset % 8)
  }

  function PutByte(mem: Mem, frame: nat, offset: nat, b: byte): Mem
    requires offset < 4096
  {
    Store(mem, frame, offset / 8, SetByte(Lookup(mem, frame, offset / 8), offset % 8, b))
  }

  // One byte changes and no other.
  lemma {:induction false} PutThenGet(mem: Mem, frame: nat, offset: nat, b: byte, f: nat, o: nat)
    requires frame < |mem| && offset < 4096 && o < 4096
    ensures ByteAt(PutByte(mem, frame, offset, b), f, o) == if f == frame && o == offset then b else ByteAt(mem, f, o)
  {
    hide ByteOf, SetByte;
    if f == frame && o / 8 == offset / 8 {
      SetByteBytes(Lookup(mem, frame, offset / 8), offset % 8, b, o % 8);
    }
  }

  lemma {:induction false} PutShape(mem: Mem, frame: nat, offset: nat, b: byte)
    requires offset < 4096
    ensures |PutByte(mem, frame, offset, b)| == |mem|
    ensures forall f :: 0 <= f < |mem| && f != frame ==> PutByte(mem, frame, offset, b)[f] == mem[f]
  {
  }
}
