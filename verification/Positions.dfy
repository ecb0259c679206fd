/**
 Bits of positions and aligned blocks of positions, in terms that need no division.
 */
module Positions {

  /** count is a power of two; the source tests (count & (count - 1)) == 0 for a positive count. */
  predicate PowerOfTwo(n: nat) {
    n == 1 || (n > 1 && n % 2 == 0 && PowerOfTwo(n / 2))
  }

  lemma DoublePower(n: nat)
    requires PowerOfTwo(n)
    ensures PowerOfTwo(2 * n)
  {
    assert 2 * n / 2 == n;
  }

  /** i & j for a power of two j: is that bit of i set?  Bits repeat with period 2j. */
  predicate BitSet(i: nat, j: nat)
    requires j > 0
  {
    if i < j then false else if i < 2 * j then true else BitSet(i - 2 * j, j)
  }

  /** a and b lie in the same aligned block of d positions. */
  predicate SameBlock(a: nat, b: nat, d: nat)
    requires d > 0
  {
    if a < d then b < d else b >= d && SameBlock(a - d, b - d, d)
  }

  /** B is a multiple of d. */
  predicate Aligned(B: nat, d: nat)
    requires d > 0
  {
    B == 0 || (B >= d && Aligned(B - d, d))
  }

  /** Within an aligned block of 2j positions, bit j tells the upper half from the lower. */
  lemma {:induction false} BitInBlock(B: nat, j: nat, i: nat)
    requires j > 0 && Aligned(B, 2 * j) && B <= i < B + 2 * j
    ensures BitSet(i, j) <==> i >= B + j
  {
    if B > 0 { BitInBlock(B - 2 * j, j, i - 2 * j); }
  }

  /** All positions of an aligned block of k agree on bit k. */
  lemma {:induction false} BlockSharesBit(B: nat, k: nat, i: nat)
    requires k > 0 && Aligned(B, k) && B <= i < B + k
    ensures BitSet(i, k) == BitSet(B, k)
  {
    if B >= 2 * k { BlockSharesBit(B - 2 * k, k, i - 2 * k); }
  }

  /** The halves of an aligned block are aligned, and bit k tells them apart. */
  lemma {:induction false} Halves(B: nat, k: nat)
    requires k > 0 && Aligned(B, 2 * k)
    ensures Aligned(B, k) && Aligned(B + k, k) && !BitSet(B, k) && BitSet(B + k, k)
  {
    if B > 0 {
      Halves(B - 2 * k, k);
      assert Aligned(B - k, k);
    }
  }

  /** The aligned block of 2j positions around i. */
  lemma {:induction false} BlockOf(i: nat, j: nat, n: nat) returns (B: nat)
    requires j > 0 && Aligned(n, 2 * j) && i < n
    ensures Aligned(B, 2 * j) && B <= i < B + 2 * j <= n
  {
    if i < 2 * j {
      B := 0;
    } else {
      B := BlockOf(i - 2 * j, j, n - 2 * j);
      B := B + 2 * j;
    }
  }

  lemma {:induction false} AlignedSum(a: nat, b: nat, e: nat)
    requires e > 0 && Aligned(a, e) && Aligned(b, e)
    ensures Aligned(a + b, e)
  {
    if b > 0 { AlignedSum(a, b - e, e); }
  }

  lemma {:induction false} MultipleAligned(d: nat, q: nat)
    requires d > 0
    ensures Aligned(d * q, d)
  {
    if q > 0 {
      MultipleAligned(d, q - 1);
      assert d * q == d * (q - 1) + d;
    }
  }

  lemma {:induction false} DoubleAligned(B: nat, d: nat)
    requires d > 0 && Aligned(B, d)
    ensures Aligned(2 * B, 2 * d)
  {
    if B > 0 { DoubleAligned(B - d, d); }
  }

  lemma {:induction false} PowerDivides(j: nat, n: nat)
    requires PowerOfTwo(j) && PowerOfTwo(n) && j < n
    ensures 2 * j <= n && Aligned(n, 2 * j)
  {
    if j == 1 {
      EvenAligned(n);
    } else {
      PowerDivides(j / 2, n / 2);
      DoubleAligned(n / 2, j);
    }
  }

  lemma {:induction false} EvenAligned(n: nat)
    requires n % 2 == 0
    ensures Aligned(n, 2)
  {
    if n > 0 { EvenAligned(n - 2); }
  }

  // ----- division by repeated subtraction -----

  /** o / k and o % k. */
  function Quotient(o: nat, k: nat): nat
    requires k > 0
  {
    if o < k then 0 else 1 + Quotient(o - k, k)
  }

  function Remainder(o: nat, k: nat): (r: nat)
    requires k > 0
    ensures r < k
  {
    if o < k then o else Remainder(o - k, k)
  }

  lemma {:induction false} QuotientRemainder(o: nat, k: nat)
    requires k > 0
    ensures o == k * Quotient(o, k) + Remainder(o, k)
  {
    if o >= k { QuotientRemainder(o - k, k); }
  }

  lemma {:induction false} QuotientUnique(k: nat, q: nat, r: nat)
    requires r < k
    ensures Quotient(k * q + r, k) == q && Remainder(k * q + r, k) == r
  {
    if q > 0 {
      assert k * q + r == k * (q - 1) + r + k && k * (q - 1) >= 0;
      QuotientUnique(k, q - 1, r);
    }
  }

  /** Slots are numbered chunk by chunk, so a slot of chunk t lies below the end of the last chunk. */
  lemma ChunkEnds(k: nat, q: nat, r: nat, n: nat)
    requires r < k
    ensures k * q + r < k * n <==> q < n
  {
    if q < n { assert k * (n - q - 1) >= 0; assert k * n == k * q + k + k * (n - q - 1); }
    else { assert k * (q - n) >= 0; assert k * q == k * n + k * (q - n); }
  }

  /** Whole blocks in front of a position add to its quotient. */
  lemma {:induction false} QuotientAdds(p: nat, o: nat, d: nat)
    requires d > 0 && Aligned(p, d)
    ensures Quotient(p + o, d) == Quotient(p, d) + Quotient(o, d)
  {
    if p > 0 { QuotientAdds(p - d, o, d); }
  }

  lemma {:induction false} RemainderRepeats(q: nat, x: nat, n: nat)
    requires n > 0
    ensures x < n ==> (Remainder(q + x, n) == Remainder(q, n) <==> x == 0)
    ensures Remainder(q + n, n) == Remainder(q, n)
  {
    if q >= n { RemainderRepeats(q - n, x, n); }
  }

  /** The positions of the block of d at `left` share their quotient. */
  lemma {:induction false} QuotientInBlock(left: nat, d: nat, c: nat)
    requires d > 0 && Aligned(left, d) && left <= c < left + d
    ensures Quotient(c, d) == Quotient(left, d)
  {
    if left > 0 { QuotientInBlock(left - d, d, c - d); }
  }

  /** Stepping from block to block by n blocks at a time, the blocks in between belong to other residues. */
  lemma BlocksBetween(left: nat, d: nat, n: nat, c: nat)
    requires d > 0 && n > 0 && Aligned(left, d) && left + d <= c < left + d * n
    ensures Remainder(Quotient(c, d), n) != Remainder(Quotient(left, d), n)
  {
    var x := c - left;
    QuotientAdds(left, x, d);
    QuotientAdds(left, 0, d);
    QuotientRemainder(x, d);
    ChunkEnds(d, Quotient(x, d), Remainder(x, d), n);
    RemainderRepeats(Quotient(left, d), Quotient(x, d), n);
  }
}
