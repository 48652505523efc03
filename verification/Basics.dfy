/** Bytes, optional values and powers of two. */
module Basics {

  type byte = bv8

  datatype Option<+T> = None | Some(value: T)

  function Min(a: nat, b: nat): nat { if a > b then b else a }

  function Pow2(n: nat): nat {
    if n == 0 then 1 else 2 * Pow2(n - 1)
  }

  lemma {:induction false} Pow2Monotonic(m: nat, n: nat)
    requires m <= n
    ensures 1 <= Pow2(m) <= Pow2(n)
  {
    if m < n {
      Pow2Monotonic(m, n - 1);
    } else if m > 0 {
      Pow2Monotonic(m - 1, m - 1);
    }
  }

  lemma Pow2Bounds(n: nat)
    requires 7 <= n <= 15
    ensures 128 <= Pow2(n) <= 32768 && (9 <= n ==> 512 <= Pow2(n))
  {
    assert Pow2(7) == 128 && Pow2(9) == 512 && Pow2(15) == 32768;
    Pow2Monotonic(7, n);
    Pow2Monotonic(n, 15);
    if 9 <= n { Pow2Monotonic(9, n); }
  }
}
