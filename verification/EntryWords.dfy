/** The words the mapping functions store, bit by bit. */
module EntryWords {
  import opened Paging
  import opened Words

  // Bit k of n.
  predicate BitOf(n: nat, k: nat) {
    if k == 0 then n % 2 == 1 else BitOf(n / 2, k - 1)
  }

  function Pow2(m: nat): (p: nat)
    ensures p > 0
  {
    if m == 0 then 1 else 2 * Pow2(m - 1)
  }

  // Fields one above the other keep their bits.
  lemma {:induction false} FieldBits(a: nat, b: nat, m: nat, k: nat)
    requires a < Pow2(m)
    ensures BitOf(a + Pow2(m) * b, k) <==> if k < m then BitOf(a, k) else BitOf(b, k - m)
    decreases m
  {
    if m > 0 {
      var p := Pow2(m - 1);
      assert a + Pow2(m) * b == a + 2 * (p * b);
      Halved(a, p * b);
      if k > 0 {
        FieldBits(a / 2, b, m - 1, k - 1);
      }
    }
  }

  lemma {:induction false} Halved(a: nat, c: nat)
    ensures (a + 2 * c) % 2 == a % 2 && (a + 2 * c) / 2 == a / 2 + c
  {
  }

  lemma {:induction false} Powers()
    ensures Pow2(7) == 0x80 && Pow2(12) == 0x1000 && Pow2(40) == 0x100_0000_0000 && Pow2(52) == 0x10_0000_0000_0000
  {
    assert Pow2(7) == 0x80;
    assert Pow2(12) == 0x1000;
    assert Pow2(20) == 0x10_0000;
    assert Pow2(30) == 0x4000_0000;
    assert Pow2(40) == 0x100_0000_0000;
    assert Pow2(50) == 0x4_0000_0000_0000;
  }

  // The word of an entry is its three fields.
  lemma {:induction false} WordBits(e: Entry, k: nat)
    ensures BitOf(WordValue(e), k) <==>
      if k < 12 then BitOf(e.flags.low, k) else if k < 52 then BitOf(e.frame, k - 12) else BitOf(e.flags.high, k - 52)
  {
    hide BitOf, Pow2;
    Powers();
    var low: nat, f: nat, h: nat := e.flags.low, e.frame, e.flags.high;
    assert WordValue(e) == low + 0x1000 * (f + 0x100_0000_0000 * h);
    FieldBits(low, f + 0x100_0000_0000 * h, 12, k);
    if k >= 12 {
      FieldBits(f, h, 40, k - 12);
    }
  }

  // Bits 51..12 of an address are the bits of its frame number.
  lemma {:induction false} AddressBits(phys: nat, k: nat)
    requires 12 <= k < 52
    ensures BitOf(phys / 4096 % 0x100_0000_0000, k - 12) <==> BitOf(phys, k)
  {
    hide BitOf, Pow2;
    Powers();
    var x := phys / 4096;
    FieldBits(phys % 4096, x, 12, k);
    assert phys % 4096 + 0x1000 * x == phys;
    FieldBits(x % 0x100_0000_0000, x / 0x100_0000_0000, 40, k - 12);
    assert x % 0x100_0000_0000 + 0x100_0000_0000 * (x / 0x100_0000_0000) == x;
  }

  lemma {:induction false} SetLowest(x: nat, k: nat)
    requires x % 2 == 0
    ensures BitOf(x + 1, k) <==> k == 0 || BitOf(x, k)
  {
    assert (x + 1) / 2 == x / 2;
  }

  lemma {:induction false} SetSeventh(x: nat, k: nat)
    requires x / 0x80 % 2 == 0
    ensures BitOf(x + 0x80, k) <==> k == 7 || BitOf(x, k)
  {
    hide Pow2, BitOf;
    Powers();
    var a, b := x % 0x80, x / 0x80;
    FieldBits(a, b, 7, k);
    FieldBits(a, b + 1, 7, k);
    assert x == a + 0x80 * b && x + 0x80 == a + 0x80 * (b + 1);
    if k >= 7 {
      SetLowest(b, k - 7);
      ZeroIsSeventh(k);
    }
  }

  lemma {:induction false} ZeroIsSeventh(k: nat)
    requires k >= 7
    ensures k - 7 == 0 <==> k == 7
  {
  }

  lemma {:induction false} SeventhBit(x: nat)
    ensures BitOf(x, 7) <==> x / 0x80 % 2 == 1
  {
    hide Pow2, BitOf;
    Powers();
    FieldBits(x % 0x80, x / 0x80, 7, 7);
    assert x == x % 0x80 + 0x80 * (x / 0x80);
    FirstBit(x / 0x80);
  }

  lemma {:induction false} FirstBit(x: nat)
    ensures BitOf(x, 0) <==> x % 2 == 1
  {
  }

  lemma {:induction false} LeafLow(flags: Flags, k: nat)
    ensures BitOf(AsLeaf(flags).low, k) <==> k == 0 || BitOf(flags.low, k)
  {
    hide BitOf;
    FirstBit(flags.low);
    if flags.low % 2 == 0 {
      SetLowest(flags.low, k);
    }
  }

  lemma {:induction false} HugeLow(flags: Flags, k: nat)
    ensures BitOf(AsHuge(flags).low, k) <==> k == 0 || k == 7 || BitOf(flags.low, k)
  {
    hide BitOf, AsLeaf;
    LeafLow(flags, k);
    LeafLow(flags, 7);
    var x := AsLeaf(flags).low;
    SeventhBit(x);
    if x / 0x80 % 2 == 0 {
      SetSeventh(x, k);
    }
  }

  // The flags argument as the 64-bit number it is.
  function FlagsWord(flags: Flags): nat {
    flags.low + 0x10_0000_0000_0000 * flags.high
  }

  lemma {:induction false} FlagsWordBits(flags: Flags, k: nat)
    ensures BitOf(FlagsWord(flags), k) <==>
      if k < 12 then BitOf(flags.low, k) else if k < 52 then false else BitOf(flags.high, k - 52)
  {
    hide BitOf;
    WordBits(Entry(0, flags), k);
    if 12 <= k < 52 {
      NoBits(k - 12);
    }
  }

  lemma {:induction false} NoBits(k: nat)
    ensures !BitOf(0, k)
    decreases k
  {
    if k > 0 {
      NoBits(k - 1);
    }
  }

  // The word of a 4 KB leaf: bits 51..12 of the address, every bit of the flags, and bit 0.
  lemma {:induction false} LeafWord(phys: nat, flags: Flags, k: nat)
    ensures BitOf(WordValue(LeafEntry(phys, flags)), k) <==> (12 <= k < 52 && BitOf(phys, k)) || BitOf(FlagsWord(flags), k) || k == 0
  {
    hide BitOf, AsLeaf, FlagsWord, WordValue;
    WordBits(LeafEntry(phys, flags), k);
    FlagsWordBits(flags, k);
    LeafLow(flags, k);
    if 12 <= k < 52 {
      AddressBits(phys, k);
    }
    HighKept(flags);
  }

  lemma {:induction false} HighKept(flags: Flags)
    ensures AsLeaf(flags).high == flags.high == AsHuge(flags).high
  {
  }

  // The word of a 2 MB leaf: the same and bit 7.
  lemma {:induction false} HugeWord(phys: nat, flags: Flags, k: nat)
    ensures BitOf(WordValue(HugeEntry(phys, flags)), k) <==>
      (12 <= k < 52 && BitOf(phys, k)) || BitOf(FlagsWord(flags), k) || k == 0 || k == 7
  {
    hide BitOf, AsLeaf, AsHuge, FlagsWord, WordValue;
    WordBits(HugeEntry(phys, flags), k);
    FlagsWordBits(flags, k);
    HugeLow(flags, k);
    if 12 <= k < 52 {
      AddressBits(phys, k);
    }
    HighKept(flags);
  }

  // The word of a link: the address of the table, bits 0 and 1.
  lemma {:induction false} LinkWord(table: nat)
    requires table < 0x100_0000_0000
    ensures WordValue(TableEntry(table)) == 4096 * table + 3
  {
  }

  // For a heap page with flags 3: the block's address and 0x83. For a page of a device with the
  // cache disabled as well, flags 0x13: its address and 0x13.
  lemma {:induction false} LeafValues(block: nat, frame: nat)
    requires 512 * block < 0x100_0000_0000 && frame < 0x100_0000_0000
    ensures WordValue(HugeEntry(0x20_0000 * block, Flags(3, 0))) == 0x20_0000 * block + 0x83
    ensures WordValue(LeafEntry(4096 * frame, Flags(3, 0))) == 4096 * frame + 3
    ensures WordValue(LeafEntry(4096 * frame, Flags(0x13, 0))) == 4096 * frame + 0x13
  {
    assert 0x20_0000 * block / 4096 == 512 * block;
  }
}
