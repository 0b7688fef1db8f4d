/** Bytes, and numbers as sequences of them, least significant first. */
module Bytes {

  newtype byte = x: int | 0 <= x < 256

  function Pow256(i: nat): nat {
    if i == 0 then 1 else 256 * Pow256(i - 1)
  }

  // Byte k of n.
  function Digit(n: nat, k: nat): byte {
    if k == 0 then (n % 256) as byte else Digit(n / 256, k - 1)
  }

  // n with byte k replaced by b.
  function SetDigit(n: nat, k: nat, b: byte): nat {
    if k == 0 then n / 256 * 256 + b as nat else n % 256 + 256 * SetDigit(n / 256, k - 1, b)
  }

  lemma {:induction false} SetDigitDigits(n: nat, k: nat, b: byte, j: nat)
    ensures Digit(SetDigit(n, k, b), j) == if j == k then b else Digit(n, j)
  {
    if k > 0 && j > 0 {
      SetDigitDigits(n / 256, k - 1, b, j - 1);
    }
  }

  lemma {:induction false} SetDigitBound(n: nat, k: nat, b: byte, m: nat)
    requires k < m && n < Pow256(m)
    ensures SetDigit(n, k, b) < Pow256(m)
  {
    if k > 0 {
      SetDigitBound(n / 256, k - 1, b, m - 1);
    }
  }
}
