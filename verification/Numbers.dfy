/** Small arithmetic the components share. */
module Numbers {

  function Min(a: nat, b: nat): nat {
    if a < b then a else b
  }

  function Max(a: nat, b: nat): nat {
    if a < b then b else a
  }

  // n rounded up to whole vectors of eight: (n + 7) & ~7.
  function Padded(n: nat): (np: nat)
    ensures n <= np < n + 8 && np % 8 == 0
  {
    (n + 7) / 8 * 8
  }
}
