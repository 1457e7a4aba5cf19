/** Facts about numbers. */
module Arithmetic {

  function Max(a: nat, b: nat): nat {
    if a < b then b else a
  }

  /** Multiples of a number are at least that number apart. */
  lemma MulGap(m: nat, n: nat, i: nat)
    requires m < n
    ensures m * i + i <= n * i
  {
    assert (n - m - 1) * i >= 0;
    assert n * i == m * i + i + (n - m - 1) * i;
  }
}
