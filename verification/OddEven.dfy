/**
 The odd-even merge network of sort_odd_even.

 Stage p merges neighbouring sorted blocks of p elements.  Its step k compares positions that are k
 apart; the invariant of the merge says how the zeros are spread over the positions modulo k.
 */
module OddEven {
  import opened Order
  import opened Networks
  import opened Positions

  /** k & (p - 1), for the steps k <= p of stage p. */
  function Offset(p: nat, k: nat): nat {
    if k == p then 0 else k
  }

  /**
   Step k of stage p.  The inner loops visit ij = kp + 2k * x + i with i < k, where kp is k & (p - 1),
   and compare it with ij + k if both lie in the same block of 2p.
   */
  function WireAt(p: nat, k: nat, i: nat): Wire {
    if p == 0 || k == 0 then Idle else
    var kp := Offset(p, k);
    if i >= kp && !BitSet(i - kp, k) then (if SameBlock(i, i + k, 2 * p) then KeepMin(i + k) else Idle)
    else if i >= kp + k && SameBlock(i - k, i, 2 * p) then KeepMax(i - k)
    else Idle
  }

  function Wiring(): Network {
    (p: nat, k: nat) => (i: nat) => WireAt(p, k, i)
  }

  // ----- positions inside a block -----

  lemma {:induction false} BlockLocal(B: nat, d: nat, o: nat, o': nat)
    requires d > 0 && Aligned(B, d) && o < d
    ensures SameBlock(B + o, B + o', d) <==> o' < d
  {
    if B > 0 { BlockLocal(B - d, d, o, o'); }
  }

  lemma {:induction false} BitShift(B: nat, k: nat, x: nat)
    requires k > 0 && Aligned(B, 2 * k)
    ensures BitSet(B + x, k) == BitSet(x, k)
  {
    if B > 0 { BitShift(B - 2 * k, k, x); }
  }

  lemma {:induction false} BitFlip(x: nat, k: nat)
    requires k > 0 && x >= k
    ensures BitSet(x - k, k) == !BitSet(x, k)
  {
    if x >= 3 * k { BitFlip(x - 2 * k, k); }
  }

  lemma {:induction false} AlignedFiner(B: nat, d: nat, e: nat)
    requires d > 0 && e > 0 && Aligned(B, d) && Aligned(d, e)
    ensures Aligned(B, e)
  {
    if B > 0 {
      AlignedFiner(B - d, d, e);
      AlignedSum(B - d, d, e);
    }
  }

  /** The first step of stage p, seen from inside an aligned block of 2p positions. */
  lemma FirstWire(p: nat, B: nat, o: nat)
    requires p > 0 && Aligned(B, 2 * p) && o < 2 * p
    ensures WireAt(p, p, B + o) == if o < p then KeepMin(B + o + p) else KeepMax(B + o - p)
  {
    BlockLocal(B, 2 * p, o, o + p);
    if o >= p { BlockLocal(B, 2 * p, o - p, o); }
    BitInBlock(B, p, B + o);
  }

  /** Step k < p of stage p at an odd row of k: the position is compared with the next row of the block, if any. */
  lemma OddRowWire(p: nat, k: nat, B: nat, o: nat)
    requires 0 < k < p && Aligned(2 * p, 2 * k) && Aligned(B, 2 * p) && o < 2 * p && BitSet(o, k)
    ensures WireAt(p, k, B + o) == if o + k < 2 * p then KeepMin(B + o + k) else Idle
  {
    BlockLocal(B, 2 * p, o, o + k);
    AlignedFiner(B, 2 * p, 2 * k);
    BitShift(B, k, o);
    BitFlip(B + o, k);
  }

  /** Step k < p of stage p at an even row of k: the position is compared with the previous row of the block, if any. */
  lemma EvenRowWire(p: nat, k: nat, B: nat, o: nat)
    requires 0 < k < p && Aligned(2 * p, 2 * k) && Aligned(B, 2 * p) && o < 2 * p && !BitSet(o, k)
    ensures WireAt(p, k, B + o) == if o >= k then KeepMax(B + o - k) else Idle
  {
    AlignedFiner(B, 2 * p, 2 * k);
    BitShift(B, k, o);
    if B + o >= k {
      BitFlip(B + o, k);
      if o >= k {
        BlockLocal(B, 2 * p, o - k, o);
        EvenRowStart(o, k);
      } else if B + o >= 2 * k {
        OutsideBlock(B, 2 * p, o, k);
      }
    }
  }

  lemma EvenRowStart(o: nat, k: nat)
    requires k > 0 && o >= k && !BitSet(o, k)
    ensures o >= 2 * k
  {
  }

  lemma StepDivides(k: nat, p: nat)
    requires PowerOfTwo(k) && PowerOfTwo(p) && k < p
    ensures Aligned(p, 2 * k) && Aligned(2 * p, 2 * k)
  {
    PowerDivides(k, p);
    AlignedSum(p, p, 2 * k);
  }

  lemma {:induction false} OutsideBlock(B: nat, d: nat, o: nat, k: nat)
    requires d > 0 && Aligned(B, d) && 0 < B && o < k <= B + o && k < d
    ensures !SameBlock(B + o - k, B + o, d)
  {
    if B > d { OutsideBlock(B - d, d, o, k); }
  }

  /** The wires of an aligned block of 2p positions, described from inside the block. */
  function BlockWire(p: nat, k: nat, B: nat, i: nat): Wire
    requires B <= i < B + 2 * p && 0 < k <= p
  {
    if k == p then (if i < B + p then KeepMin(i + p) else KeepMax(i - p))
    else if BitSet(i - B, k) then (if i + k < B + 2 * p then KeepMin(i + k) else Idle)
    else if i - B >= k then KeepMax(i - k)
    else Idle
  }

  ghost predicate BlockWired(layer: Layer, p: nat, k: nat, B: nat)
    requires 0 < k <= p
  {
    forall i {:trigger layer(i)} :: B <= i < B + 2 * p ==> layer(i) == BlockWire(p, k, B, i)
  }

  lemma Wired(p: nat, k: nat, B: nat)
    requires PowerOfTwo(p) && PowerOfTwo(k) && 0 < k <= p && Aligned(B, 2 * p)
    ensures BlockWired(Wiring()(p, k), p, k, B)
  {
    if k < p { StepDivides(k, p); }
    forall i | B <= i < B + 2 * p ensures WireAt(p, k, i) == BlockWire(p, k, B, i) {
      if k == p { FirstWire(p, B, i - B); }
      else if BitSet(i - B, k) { OddRowWire(p, k, B, i - B); }
      else { EvenRowWire(p, k, B, i - B); }
    }
  }

  lemma BlockPaired(layer: Layer, p: nat, k: nat, B: nat, i: nat, n: nat)
    requires 0 < k <= p && BlockWired(layer, p, k, B) && B <= i < B + 2 * p <= n
    ensures PairedAt(layer, i, n)
  {
    if k < p {
      if BitSet(i - B, k) { NeighbourAbove(i - B, k); }
      else if i - B >= k { NeighbourBelow(i - B, k); }
    }
  }

  lemma PartnersAgree(p: nat, k: nat, n: nat)
    requires PowerOfTwo(p) && PowerOfTwo(k) && PowerOfTwo(n) && 0 < k <= p < n
    ensures Paired(Wiring()(p, k), n)
  {
    PowerDivides(p, n);
    forall i | 0 <= i < n ensures PairedAt(Wiring()(p, k), i, n) {
      var B := BlockOf(i, p, n);
      Wired(p, k, B);
      BlockPaired(Wiring()(p, k), p, k, B, i, n);
    }
  }

  lemma OddEvenPermutes<T>(cmp: (T, T) -> bool, s: seq<T>)
    requires PowerOfTwo(|s|)
    ensures multiset(Staged(cmp, Wiring(), |s|, s)) == multiset(s)
  {
    var n := |s|;
    forall p, k | 0 < k <= p < n && PowerOfTwo(p) && PowerOfTwo(k) ensures Paired(Wiring()(p, k), n) {
      PartnersAgree(p, k, n);
    }
    StagedPermutes(cmp, Wiring(), n, s);
  }

  // ----- counting zeros by position modulo k -----

  /** How many of the positions c, c + k, c + 2k, ... lie below a. */
  function Below(a: int, k: nat, c: nat): nat
    requires k > 0
    decreases if a > c then a - c else 0
  {
    if a <= c then 0 else 1 + Below(a - k, k, c)
  }

  lemma {:induction false} BelowSplits(a: int, k: nat, c: nat)
    requires k > 0
    ensures Below(a, k, c) == Below(a, 2 * k, c) + Below(a, 2 * k, c + k)
    ensures Below(a, 2 * k, c + k) <= Below(a, 2 * k, c) <= Below(a, 2 * k, c + k) + 1
    decreases if a > c then a - c else 0
  {
    if a > c {
      assert Below(a, k, c) == 1 + Below(a - k, k, c);
      if a > c + k {
        assert Below(a - k, k, c) == 1 + Below(a - 2 * k, k, c);
        BelowSplits(a - 2 * k, k, c);
      }
    }
  }

  /** In twice the step, a position of column c sits in column c or c + k. */
  lemma {:induction false} QuotientSplits(o: nat, k: nat)
    requires k > 0
    ensures Quotient(o, k) == 2 * Quotient(o, 2 * k) + (if BitSet(o, k) then 1 else 0)
    ensures Remainder(o, 2 * k) == Remainder(o, k) + (if BitSet(o, k) then k else 0)
  {
    if o >= 2 * k { QuotientSplits(o - 2 * k, k); }
  }

  /** Below counts at most the positions of a whole block of p. */
  lemma {:induction false} BelowAtMost(a: int, p: nat, d: nat, c: nat)
    requires d > 0 && c < d && a <= p && Aligned(p, d)
    ensures Below(a, d, c) <= Quotient(p, d)
  {
    if a > c { BelowAtMost(a - d, p - d, d, c); }
  }

  /** In the last 2k positions of a block of 2p, the quotient by 2k is the largest there is. */
  lemma {:induction false} LastQuotient(p: nat, d: nat, o: nat)
    requires d > 0 && p > 0 && Aligned(p, d) && 2 * p <= o + d && o < 2 * p
    ensures Quotient(o, d) + 1 == 2 * Quotient(p, d)
  {
    QuotientAdds(p, o - p, d);
    LastInBlock(p, d, o - p);
  }

  lemma {:induction false} LastInBlock(p: nat, d: nat, o: nat)
    requires d > 0 && Aligned(p, d) && p <= o + d && o < p
    ensures Quotient(o, d) + 1 == Quotient(p, d)
  {
    if o >= d { LastInBlock(p - d, d, o - d); }
  }

  // ----- the merge on zero-one blocks -----

  /** The number of zeros in column c of the block when the halves start with a and b zeros. */
  function Zeros(a: nat, b: nat, k: nat, c: nat): nat
    requires k > 0
  {
    Below(a, k, c) + Below(b, k, c)
  }

  /**
   The block of 2p positions at B after step k: in every column modulo k the zeros come first, and
   there are as many as the two sorted halves had in that column.
   */
  ghost predicate ColumnsSorted(s: seq<bool>, B: nat, p: nat, k: nat, a: nat, b: nat)
    requires B + 2 * p <= |s| && k > 0
  {
    forall i {:trigger s[i]} :: B <= i < B + 2 * p ==>
      s[i] == (Quotient(i - B, k) >= Zeros(a, b, k, Remainder(i - B, k)))
  }

  /** The first step compares the two halves position by position. */
  lemma FirstStep(layer: Layer, p: nat, B: nat, s: seq<bool>, a: nat, b: nat)
    requires p > 0 && BlockWired(layer, p, p, B) && B + 2 * p <= |s| && a <= p && b <= p
    requires forall i {:trigger s[i]} :: B <= i < B + p ==> s[i] == (i >= B + a)
    requires forall i {:trigger s[i]} :: B + p <= i < B + 2 * p ==> s[i] == (i >= B + p + b)
    ensures ColumnsSorted(Apply(Less01, layer, s), B, p, p, a, b)
  {
    var r := Apply(Less01, layer, s);
    forall i {:trigger r[i]} | B <= i < B + 2 * p
      ensures r[i] == (Quotient(i - B, p) >= Zeros(a, b, p, Remainder(i - B, p)))
    {
      Apply01(layer, s, i);
      var c := if i < B + p then i - B else i - B - p;
      assert Remainder(i - B, p) == c;
      assert Below(a, p, c) == if a > c then 1 else 0;
      assert Below(b, p, c) == if b > c then 1 else 0;
    }
  }

  /** Step k turns sorted columns modulo 2k into sorted columns modulo k. */
  lemma NextStep(layer: Layer, p: nat, k: nat, B: nat, s: seq<bool>, a: nat, b: nat)
    requires 0 < k < p && Aligned(p, 2 * k) && BlockWired(layer, p, k, B) && B + 2 * p <= |s| && a <= p && b <= p
    requires ColumnsSorted(s, B, p, 2 * k, a, b)
    ensures ColumnsSorted(Apply(Less01, layer, s), B, p, k, a, b)
  {
    var r := Apply(Less01, layer, s);
    forall i {:trigger r[i]} | B <= i < B + 2 * p
      ensures r[i] == (Quotient(i - B, k) >= Zeros(a, b, k, Remainder(i - B, k)))
    {
      Apply01(layer, s, i);
      if BitSet(i - B, k) { OddRow(p, k, B, s, a, b, i - B); } else { EvenRow(p, k, B, s, a, b, i - B); }
    }
  }

  lemma OddRow(p: nat, k: nat, B: nat, s: seq<bool>, a: nat, b: nat, o: nat)
    requires 0 < k < p && Aligned(p, 2 * k) && B + 2 * p <= |s| && a <= p && b <= p
    requires ColumnsSorted(s, B, p, 2 * k, a, b) && o < 2 * p && BitSet(o, k)
    ensures (if o + k < 2 * p then s[B + o] && s[B + o + k] else s[B + o])
            == (Quotient(o, k) >= Zeros(a, b, k, Remainder(o, k)))
  {
    var c, h := Remainder(o, k), Quotient(o, 2 * k);
    QuotientSplits(o, k);
    BelowSplits(a, k, c);
    BelowSplits(b, k, c);
    assert s[B + o] == (h >= Zeros(a, b, 2 * k, c + k));
    if o + k < 2 * p {
      NeighbourAbove(o, k);
      assert s[B + o + k] == (h + 1 >= Zeros(a, b, 2 * k, c));
    } else {
      LastQuotient(p, 2 * k, o);
      BelowAtMost(a, p, 2 * k, c);
      BelowAtMost(b, p, 2 * k, c);
    }
  }

  lemma EvenRow(p: nat, k: nat, B: nat, s: seq<bool>, a: nat, b: nat, o: nat)
    requires 0 < k < p && B + 2 * p <= |s|
    requires ColumnsSorted(s, B, p, 2 * k, a, b) && o < 2 * p && !BitSet(o, k)
    ensures (if o >= k then s[B + o] || s[B + o - k] else s[B + o])
            == (Quotient(o, k) >= Zeros(a, b, k, Remainder(o, k)))
  {
    var c, h := Remainder(o, k), Quotient(o, 2 * k);
    QuotientSplits(o, k);
    BelowSplits(a, k, c);
    BelowSplits(b, k, c);
    assert s[B + o] == (h >= Zeros(a, b, 2 * k, c));
    if o >= k {
      NeighbourBelow(o, k);
      assert s[B + o - k] == (h - 1 >= Zeros(a, b, 2 * k, c + k));
    }
  }

  /** The position k above one in an odd row is in the next even row of the same column. */
  lemma {:induction false} NeighbourAbove(o: nat, k: nat)
    requires k > 0 && BitSet(o, k)
    ensures !BitSet(o + k, k)
    ensures Quotient(o + k, 2 * k) == Quotient(o, 2 * k) + 1
    ensures Remainder(o + k, 2 * k) == Remainder(o, k) == Remainder(o + k, k)
  {
    if o >= 2 * k { NeighbourAbove(o - 2 * k, k); }
  }

  /** The position k below one in an even row is in the previous odd row of the same column. */
  lemma {:induction false} NeighbourBelow(o: nat, k: nat)
    requires 0 < k <= o && !BitSet(o, k)
    ensures BitSet(o - k, k)
    ensures Quotient(o - k, 2 * k) == Quotient(o, 2 * k) - 1
    ensures Remainder(o - k, 2 * k) == Remainder(o, k) + k
  {
    assert Remainder(o, k) == Remainder(o - k, k);
    if o >= 4 * k {
      NeighbourBelow(o - 2 * k, k);
    } else {
      assert Remainder(o - k, k) == Remainder(o - 2 * k, k) == o - 2 * k;
    }
  }

  /** The steps k, k/2, ..., 1 of stage p sort the columns modulo 1, that is, the block. */
  lemma {:induction false} StepsSortColumns(p: nat, k: nat, B: nat, s: seq<bool>, a: nat, b: nat)
    requires PowerOfTwo(p) && PowerOfTwo(k) && k < p && Aligned(B, 2 * p) && B + 2 * p <= |s| && a <= p && b <= p
    requires ColumnsSorted(s, B, p, 2 * k, a, b)
    ensures ColumnsSorted(Stage(Less01, Wiring(), p, k, s), B, p, 1, a, b)
  {
    var s' := Apply(Less01, Wiring()(p, k), s);
    StepDivides(k, p);
    Wired(p, k, B);
    NextStep(Wiring()(p, k), p, k, B, s, a, b);
    if k > 1 {
      assert 2 * (k / 2) == k;
      StepsSortColumns(p, k / 2, B, s', a, b);
    }
  }

  lemma {:induction false} QuotientByOne(o: nat)
    ensures Quotient(o, 1) == o
  {
    if o > 0 { QuotientByOne(o - 1); }
  }

  /** If an aligned block of k positions starts at B, it is in ascending order. */
  ghost predicate BlockAscending<T>(cmp: (T, T) -> bool, k: nat, s: seq<T>, B: nat)
    requires k > 0
  {
    Aligned(B, k) && B + k <= |s| ==> WindowSorted(cmp, s, B, B + k, true)
  }

  ghost predicate BlocksAscending<T>(cmp: (T, T) -> bool, k: nat, s: seq<T>)
    requires k > 0
  {
    forall B: nat :: BlockAscending(cmp, k, s, B)
  }

  lemma StageMergesBlock(p: nat, B: nat, s: seq<bool>)
    requires PowerOfTwo(p) && Aligned(B, 2 * p) && B + 2 * p <= |s|
    requires WindowSorted(Less01, s, B, B + p, true) && WindowSorted(Less01, s, B + p, B + 2 * p, true)
    ensures WindowSorted(Less01, Stage(Less01, Wiring(), p, p, s), B, B + 2 * p, true)
  {
    var a := Threshold(s, B, B + p, true);
    var b := Threshold(s, B + p, B + 2 * p, true);
    StageFromThresholds(p, B, s, a - B, b - B - p);
  }

  lemma StageFromThresholds(p: nat, B: nat, s: seq<bool>, a: nat, b: nat)
    requires PowerOfTwo(p) && Aligned(B, 2 * p) && B + 2 * p <= |s| && a <= p && b <= p
    requires forall i {:trigger s[i]} :: B <= i < B + p ==> s[i] == (i >= B + a)
    requires forall i {:trigger s[i]} :: B + p <= i < B + 2 * p ==> s[i] == (i >= B + p + b)
    ensures WindowSorted(Less01, Stage(Less01, Wiring(), p, p, s), B, B + 2 * p, true)
  {
    var s' := Apply(Less01, Wiring()(p, p), s);
    Wired(p, p, B);
    FirstStep(Wiring()(p, p), p, B, s, a, b);
    var k := p / 2;
    var r := Stage(Less01, Wiring(), p, k, s');
    if p > 1 {
      assert p == 2 * k && PowerOfTwo(k);
      StepsSortColumns(p, k, B, s', a, b);
    } else {
      assert r == s';
    }
    ColumnsOfOne(r, B, p, a, b);
  }

  /** A block whose columns modulo 1 are sorted is sorted. */
  lemma ColumnsOfOne(r: seq<bool>, B: nat, p: nat, a: nat, b: nat)
    requires B + 2 * p <= |r| && ColumnsSorted(r, B, p, 1, a, b)
    ensures WindowSorted(Less01, r, B, B + 2 * p, true)
  {
    forall i, j | B <= i < j < B + 2 * p ensures !Less01(r[j], r[i]) {
      QuotientByOne(i - B);
      QuotientByOne(j - B);
      assert Remainder(i - B, 1) == Remainder(j - B, 1) == 0;
    }
  }

  lemma {:induction false} StagedBlocks01(k: nat, s: seq<bool>)
    requires PowerOfTwo(k)
    ensures BlocksAscending(Less01, k, Staged(Less01, Wiring(), k, s))
  {
    if k > 1 {
      var p := k / 2;
      var s' := Staged(Less01, Wiring(), p, s);
      StagedBlocks01(p, s);
      forall B: nat | Aligned(B, k) && B + k <= |s|
        ensures WindowSorted(Less01, Staged(Less01, Wiring(), k, s), B, B + k, true)
      {
        Halves(B, p);
        assert BlockAscending(Less01, p, s', B) && BlockAscending(Less01, p, s', B + p);
        StageMergesBlock(p, B, s');
      }
    }
  }

  /** After the stages below k, every aligned block of k elements is sorted. */
  lemma StagedBlocks<T(!new)>(cmp: (T, T) -> bool, k: nat, s: seq<T>)
    requires StrictWeak(cmp) && PowerOfTwo(k)
    ensures BlocksAscending(cmp, k, Staged(cmp, Wiring(), k, s))
  {
    forall B: nat ensures BlockAscending(cmp, k, Staged(cmp, Wiring(), k, s), B) {
      StagedBlock(cmp, k, s, B);
    }
  }

  lemma StagedBlock<T(!new)>(cmp: (T, T) -> bool, k: nat, s: seq<T>, B: nat)
    requires StrictWeak(cmp) && PowerOfTwo(k)
    ensures BlockAscending(cmp, k, Staged(cmp, Wiring(), k, s), B)
  {
    if Aligned(B, k) && B + k <= |s| {
      forall b: seq<bool> | |b| == |s|
        ensures WindowSorted(Less01, Staged(Less01, Wiring(), k, b), B, B + k, true)
      {
        StagedBlocks01(k, b);
        assert BlockAscending(Less01, k, Staged(Less01, Wiring(), k, b), B);
      }
      ZeroOnePrinciple(cmp, Wiring(), k, s, B, B + k, true);
    }
  }

  /** The odd-even merge network sorts every input of power-of-two length. */
  lemma OddEvenSorts<T(!new)>(cmp: (T, T) -> bool, s: seq<T>)
    requires StrictWeak(cmp) && PowerOfTwo(|s|)
    ensures SortedPermutation(cmp, s, Staged(cmp, Wiring(), |s|, s))
  {
    StagedBlocks(cmp, |s|, s);
    OddEvenPermutes(cmp, s);
    assert BlockAscending(cmp, |s|, Staged(cmp, Wiring(), |s|, s), 0);
  }
}
