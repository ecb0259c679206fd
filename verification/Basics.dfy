/**
 What several of the other modules need.
 */
module Basics {

  datatype Option<T> = None | Some(value: T)

  function Min(a: nat, b: nat): nat {
    if a <= b then a else b
  }

  /** 2^k */
  function Power(k: nat): (p: nat)
    ensures p > 0
  {
    if k == 0 then 1 else 2 * Power(k - 1)
  }

  // ----- division -----

  /** A multiple of m is 0 or at least m away from it. */
  lemma MultipleIsFar(x: int, m: int)
    requires m >= 0
    ensures x >= 1 ==> x * m >= m
    ensures x <= -1 ==> x * m <= -m
  {
    if x >= 1 { assert x * m == (x - 1) * m + m && (x - 1) * m >= 0; }
    if x <= -1 { assert x * m == (x + 1) * m - m && (x + 1) * m <= 0; }
  }

  lemma Division(n: nat, m: nat)
    requires m > 0
    ensures n == n / m * m + n % m
  {
  }

  /** What n is modulo m, given what it is a multiple of. */
  lemma Reduced(n: nat, r: nat, m: nat, q: nat)
    requires r < m && n == q * m + r
    ensures n % m == r
  {
    var d, e := n / m, n % m;
    Division(n, m);
    assert (q - d) * m == q * m - d * m;
    MultipleIsFar(q - d, m);
  }
}
