/**
 The 8 x 8 bit matrix of LRU8WayCache, kept in one 64-bit word: row i is byte i, and column j is bit j
 of every byte.
 */
module BitMatrix {

  const COLUMN_0: bv64 := 0x0101_0101_0101_0101
  const COLUMN_7: bv64 := 0x8080_8080_8080_8080

  /** One of the 8 slots, as a number and as a word. */
  type Slot = n: nat | n < 8

  function Word(n: Slot): (w: bv64)
    ensures w < 8
  {
    if n == 0 then 0 else if n == 1 then 1 else if n == 2 then 2 else if n == 3 then 3
    else if n == 4 then 4 else if n == 5 then 5 else if n == 6 then 6 else 7
  }

  lemma WordsDiffer(m: Slot, n: Slot)
    ensures Word(m) == Word(n) <==> m == n
  {
  }

  /** Bit j of row i. */
  predicate BitAt(cols: bv64, i: bv64, j: bv64)
    requires i < 8 && j < 8
  {
    ((cols >> (((i & 7) << 3) + (j & 7))) & 1) == 1
  }

  /** mRows[i] = 0xFF; mCols &= ~(0x0101010101010101 << i) */
  function Touched(cols: bv64, i: bv64): bv64
    requires i < 8
  {
    (cols | (0xFF << ((i & 7) << 3))) & !(COLUMN_0 << (i & 7))
  }

  lemma TouchedBits(cols: bv64, i: bv64, a: bv64, b: bv64)
    requires i < 8 && a < 8 && b < 8
    ensures BitAt(Touched(cols, i), a, b) <==> b != i && (a == i || BitAt(cols, a, b))
  {
    if i == 0 {} else if i == 1 {} else if i == 2 {} else if i == 3 {}
    else if i == 4 {} else if i == 5 {} else if i == 6 {} else {}
  }

  /** The word whose lowest set bit is the top bit of the lowest zero row. */
  function ZeroRows(cols: bv64): bv64 {
    (cols - COLUMN_0) & !cols & COLUMN_7
  }

  predicate ZeroRow(cols: bv64, i: bv64)
    requires i < 8
  {
    (cols >> ((i & 7) << 3)) & 0xFF == 0
  }

  lemma RowBits(cols: bv64, i: bv64)
    requires i < 8
    ensures ZeroRow(cols, i) <==>
            (!BitAt(cols, i, 0) && !BitAt(cols, i, 1) && !BitAt(cols, i, 2) && !BitAt(cols, i, 3)
             && !BitAt(cols, i, 4) && !BitAt(cols, i, 5) && !BitAt(cols, i, 6) && !BitAt(cols, i, 7))
  {
  }

  predicate Bit(cols: bv64, i: Slot, j: Slot) {
    BitAt(cols, Word(i), Word(j))
  }

  lemma RowOfBits(cols: bv64, i: Slot)
    ensures ZeroRow(cols, Word(i)) <==>
            (!Bit(cols, i, 0) && !Bit(cols, i, 1) && !Bit(cols, i, 2) && !Bit(cols, i, 3)
             && !Bit(cols, i, 4) && !Bit(cols, i, 5) && !Bit(cols, i, 6) && !Bit(cols, i, 7))
  {
    RowBits(cols, Word(i));
  }

  /** The rows below i are not zero, and row i is. */
  ghost predicate LowestZero(cols: bv64, i: Slot) {
    && ZeroRow(cols, Word(i))
    && (0 < i ==> !ZeroRow(cols, 0)) && (1 < i ==> !ZeroRow(cols, 1)) && (2 < i ==> !ZeroRow(cols, 2))
       && (3 < i ==> !ZeroRow(cols, 3))
    && (4 < i ==> !ZeroRow(cols, 4)) && (5 < i ==> !ZeroRow(cols, 5)) && (6 < i ==> !ZeroRow(cols, 6))
  }

  /** The bits below the top bit of byte i. */
  function BelowTop(i: Slot): bv64 {
    if i == 0 then 0x7F else if i == 1 then 0x7FFF else if i == 2 then 0x7F_FFFF else if i == 3 then 0x7FFF_FFFF
    else if i == 4 then 0x7F_FFFF_FFFF else if i == 5 then 0x7FFF_FFFF_FFFF else if i == 6 then 0x7F_FFFF_FFFF_FFFF
    else 0x7FFF_FFFF_FFFF_FFFF
  }

  /** n's lowest set bit is the top bit of byte i. */
  predicate LowestIsTop(n: bv64, i: Slot) {
    n & BelowTop(i) == 0 && n & (BelowTop(i) + 1) != 0
  }

  // The lowest zero row shows: lower rows contribute nothing, although higher ones may.  There is one
  // lemma for each row, so that its shifts and masks are constants.

  lemma LowestRow0(cols: bv64)
    requires LowestZero(cols, 0)
    ensures LowestIsTop(ZeroRows(cols), 0)
  {
  }

  lemma LowestRow1(cols: bv64)
    requires LowestZero(cols, 1)
    ensures LowestIsTop(ZeroRows(cols), 1)
  {
  }

  lemma LowestRow2(cols: bv64)
    requires LowestZero(cols, 2)
    ensures LowestIsTop(ZeroRows(cols), 2)
  {
  }

  lemma LowestRow3(cols: bv64)
    requires LowestZero(cols, 3)
    ensures LowestIsTop(ZeroRows(cols), 3)
  {
  }

  lemma LowestRow4(cols: bv64)
    requires LowestZero(cols, 4)
    ensures LowestIsTop(ZeroRows(cols), 4)
  {
  }

  lemma LowestRow5(cols: bv64)
    requires LowestZero(cols, 5)
    ensures LowestIsTop(ZeroRows(cols), 5)
  {
  }

  lemma LowestRow6(cols: bv64)
    requires LowestZero(cols, 6)
    ensures LowestIsTop(ZeroRows(cols), 6)
  {
  }

  lemma LowestRow7(cols: bv64)
    requires LowestZero(cols, 7)
    ensures LowestIsTop(ZeroRows(cols), 7)
  {
  }

  lemma LowestZeroRow(cols: bv64, i: Slot)
    requires LowestZero(cols, i)
    ensures LowestIsTop(ZeroRows(cols), i)
  {
    if i == 0 { LowestRow0(cols); } else if i == 1 { LowestRow1(cols); } else if i == 2 { LowestRow2(cols); }
    else if i == 3 { LowestRow3(cols); } else if i == 4 { LowestRow4(cols); } else if i == 5 { LowestRow5(cols); }
    else if i == 6 { LowestRow6(cols); } else { LowestRow7(cols); }
  }

  lemma ByteBelow(n: bv64, i: Slot)
    requires LowestIsTop(n, i) && i > 0
    ensures n & 0xFF == 0 && LowestIsTop(n >> 8, i - 1)
  {
    if i == 1 {} else if i == 2 {} else if i == 3 {} else if i == 4 {} else if i == 5 {} else if i == 6 {} else {}
  }

  lemma ByteZero(n: bv64)
    requires LowestIsTop(n, 0)
    ensures n & 0xFF == 0x80
  {
  }

  /** How often n can be halved. */
  function TrailingZeros(n: bv64): nat
    requires n != 0
    decreases n
  {
    if n & 1 == 1 then 0 else 1 + TrailingZeros(n >> 1)
  }

  lemma EightMore(n: bv64)
    requires n != 0 && n & 0xFF == 0
    ensures n >> 8 != 0 && TrailingZeros(n) == 8 + TrailingZeros(n >> 8)
  {
    assert n >> 2 == n >> 1 >> 1 && TrailingZeros(n) == 2 + TrailingZeros(n >> 2);
    assert n >> 4 == n >> 2 >> 1 >> 1 && TrailingZeros(n >> 2) == 2 + TrailingZeros(n >> 4);
    assert n >> 6 == n >> 4 >> 1 >> 1 && TrailingZeros(n >> 4) == 2 + TrailingZeros(n >> 6);
    assert n >> 8 == n >> 6 >> 1 >> 1 && TrailingZeros(n >> 6) == 2 + TrailingZeros(n >> 8);
  }

  lemma TopBit(n: bv64)
    requires n & 0xFF == 0x80
    ensures n != 0 && TrailingZeros(n) == 7
  {
    assert n >> 2 == n >> 1 >> 1 && TrailingZeros(n) == 2 + TrailingZeros(n >> 2);
    assert n >> 4 == n >> 2 >> 1 >> 1 && TrailingZeros(n >> 2) == 2 + TrailingZeros(n >> 4);
    assert n >> 6 == n >> 4 >> 1 >> 1 && TrailingZeros(n >> 4) == 2 + TrailingZeros(n >> 6);
    assert (n >> 6 >> 1) & 1 == 1 && TrailingZeros(n >> 6) == 1;
  }

  lemma {:induction false} TopBitCounted(n: bv64, i: Slot)
    requires LowestIsTop(n, i)
    ensures n != 0 && TrailingZeros(n) == 8 * i + 7
  {
    if i == 0 {
      assert n & 0xFF == 0x80 by { ByteZero(n); }
      TopBit(n);
    } else {
      ByteBelow(n, i);
      TopBitCounted(n >> 8, i - 1);
      assert n != 0;
      EightMore(n);
    }
  }

  /** _count_trailing_zero_bits, the loop. */
  method CountTrailingZeroBits(n: bv64) returns (ret: nat)
    requires n != 0
    ensures ret == TrailingZeros(n)
  {
    ret := 0;
    var m := n;
    while m & 1 == 0
      invariant m != 0 && ret + TrailingZeros(m) == TrailingZeros(n)
      decreases TrailingZeros(m)
    {
      m := m >> 1;
      ret := ret + 1;
    }
  }

  /** _get_lru_index */
  method GetLruIndex(cols: bv64, ghost i: Slot) returns (index: nat)
    requires LowestZero(cols, i)
    ensures index == i
  {
    LowestZeroRow(cols, i);
    TopBitCounted(ZeroRows(cols), i);
    var n := CountTrailingZeroBits(ZeroRows(cols));
    index := n / 8;
  }
}
