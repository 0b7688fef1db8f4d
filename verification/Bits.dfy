/** Single-bit operations on the bytes of the frame bitmap. */
module Bits {

  // 1 << k, as the bitmap code writes it.
  function Mask(k: nat): bv8
    requires k < 8
  {
    (1 as bv8) << k
  }

  predicate Bit(b: bv8, k: nat)
    requires k < 8
  {
    b & Mask(k) != 0
  }

  lemma {:induction false} SetBit(b: bv8, k: nat, j: nat)
    requires k < 8 && j < 8
    ensures Bit(b | Mask(k), j) == (j == k || Bit(b, j))
  {
  }

  lemma {:induction false} ClearBit(b: bv8, k: nat, j: nat)
    requires k < 8 && j < 8
    ensures Bit(b & !Mask(k), j) == (j != k && Bit(b, j))
  {
  }

  lemma {:induction false} MaskValues()
    ensures Mask(0) == 1 && Mask(1) == 2 && Mask(2) == 4 && Mask(3) == 8
    ensures Mask(4) == 16 && Mask(5) == 32 && Mask(6) == 64 && Mask(7) == 128
  {
  }

  lemma {:induction false} BitsAreMasks(b: bv8)
    ensures Bit(b, 0) == (b & 1 != 0) && Bit(b, 1) == (b & 2 != 0)
    ensures Bit(b, 2) == (b & 4 != 0) && Bit(b, 3) == (b & 8 != 0)
    ensures Bit(b, 4) == (b & 16 != 0) && Bit(b, 5) == (b & 32 != 0)
    ensures Bit(b, 6) == (b & 64 != 0) && Bit(b, 7) == (b & 128 != 0)
  {
    MaskValues();
  }

  lemma {:induction false} FullByte(b: bv8)
    ensures b == 0xff <==> forall k :: 0 <= k < 8 ==> Bit(b, k)
  {
    BitsAreMasks(b);
  }

  lemma {:induction false} EmptyByte(b: bv8)
    ensures b == 0 <==> forall k :: 0 <= k < 8 ==> !Bit(b, k)
  {
    BitsAreMasks(b);
  }

  // A byte is determined by its eight bits.
  lemma {:induction false} ByteExtensionality(b: bv8, c: bv8)
    requires forall k :: 0 <= k < 8 ==> Bit(b, k) == Bit(c, k)
    ensures b == c
  {
    BitsAreMasks(b);
    BitsAreMasks(c);
    assert forall k :: 0 <= k < 8 ==> Bit(b, k) == Bit(c, k);
  }
}
