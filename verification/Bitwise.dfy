/**
 The bitwise operators of the source on numbers that are not negative, bit by bit, and what they come
 to where one side is a power of two.
 */
module Bitwise {
  import opened Positions

  /** a & b */
  function And(a: nat, b: nat): nat {
    if a == 0 || b == 0 then 0 else 2 * And(a / 2, b / 2) + if a % 2 == 1 && b % 2 == 1 then 1 else 0
  }

  /** a ^ b */
  function Xor(a: nat, b: nat): nat
    decreases a + b
  {
    if a == 0 && b == 0 then 0 else 2 * Xor(a / 2, b / 2) + if a % 2 != b % 2 then 1 else 0
  }

  /** a >> n */
  function Shr(a: nat, n: nat): nat {
    if n == 0 then a else Shr(a / 2, n - 1)
  }

  // ----- BitSet and SameBlock, halved -----

  lemma {:induction false} LowestBit(i: nat)
    ensures BitSet(i, 1) <==> i % 2 == 1
  {
    if i >= 2 { LowestBit(i - 2); }
  }

  lemma {:induction false} HigherBit(i: nat, j: nat)
    requires j > 0
    ensures BitSet(i, 2 * j) <==> BitSet(i / 2, j)
  {
    if i >= 4 * j {
      HigherBit(i - 4 * j, j);
      assert (i - 4 * j) / 2 == i / 2 - 2 * j;
    }
  }

  lemma {:induction false} BitAtLeast(i: nat, j: nat)
    requires j > 0 && BitSet(i, j)
    ensures i >= j
  {
    if i >= 2 * j { BitAtLeast(i - 2 * j, j); }
  }

  lemma {:induction false} BlocksOfOne(a: nat, b: nat)
    ensures SameBlock(a, b, 1) <==> a == b
  {
    if a > 0 && b > 0 { BlocksOfOne(a - 1, b - 1); }
  }

  lemma {:induction false} LargerBlocks(a: nat, b: nat, d: nat)
    requires d > 0
    ensures SameBlock(a, b, 2 * d) <==> SameBlock(a / 2, b / 2, d)
  {
    if a >= 2 * d && b >= 2 * d {
      LargerBlocks(a - 2 * d, b - 2 * d, d);
      assert (a - 2 * d) / 2 == a / 2 - d && (b - 2 * d) / 2 == b / 2 - d;
    }
  }

  // ----- the operators at powers of two -----

  /** i & j tells whether the bit of i is set. */
  lemma {:induction false} AndPower(i: nat, j: nat)
    requires PowerOfTwo(j)
    ensures And(i, j) == if BitSet(i, j) then j else 0
  {
    if j == 1 {
      LowestBit(i);
      assert And(i / 2, 0) == 0;
    } else {
      AndPower(i / 2, j / 2);
      HigherBit(i, j / 2);
      if i == 0 { assert !BitSet(i, j); }
    }
  }

  lemma {:induction false} XorZero(i: nat)
    ensures Xor(i, 0) == i
  {
    if i > 0 { XorZero(i / 2); }
  }

  /** i ^ j flips the bit of i. */
  lemma {:induction false} XorPower(i: nat, j: nat)
    requires PowerOfTwo(j)
    ensures Xor(i, j) == if BitSet(i, j) then i - j else i + j
  {
    if j == 1 {
      LowestBit(i);
      XorZero(i / 2);
    } else {
      XorPower(i / 2, j / 2);
      HigherBit(i, j / 2);
    }
  }

  /** k & (p - 1) for powers of two k <= p. */
  lemma {:induction false} AndMask(k: nat, p: nat)
    requires PowerOfTwo(k) && PowerOfTwo(p) && k <= p
    ensures And(k, p - 1) == if k == p then 0 else k
  {
    if p > 1 {
      assert (p - 1) / 2 == p / 2 - 1 && (p - 1) % 2 == 1;
      if k > 1 { AndMask(k / 2, p / 2); } else { assert And(0, p / 2 - 1) == 0; }
    }
  }

  /** The right amount to shift by for blocks of 2p: 1 for p = 1, and one more each time p is doubled. */
  function ShiftOf(p: nat): nat {
    if p <= 1 then 1 else 1 + ShiftOf(p / 2)
  }

  /** Equal when shifted means that they are in the same block. */
  lemma {:induction false} ShiftedEqual(a: nat, b: nat, p: nat)
    requires PowerOfTwo(p)
    ensures Shr(a, ShiftOf(p)) == Shr(b, ShiftOf(p)) <==> SameBlock(a, b, 2 * p)
  {
    LargerBlocks(a, b, p);
    if p == 1 {
      BlocksOfOne(a / 2, b / 2);
      assert Shr(a, 1) == Shr(a / 2, 0) && Shr(b, 1) == Shr(b / 2, 0);
    } else {
      ShiftedEqual(a / 2, b / 2, p / 2);
    }
  }
}
