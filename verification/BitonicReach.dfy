/**
 How much of the array the chunks of sort_bitonic must reach: the sort is right for every input
 exactly when count % numThreads is 0 or 1.
 */
module BitonicReach {
  import opened Order
  import opened Positions
  import opened Networks
  import opened Bitonic
  import opened BitonicThreads

  /** Exactly one position is marked. */
  ghost predicate Single(s: seq<bool>, p: nat) {
    p < |s| && forall i {:trigger s[i]} :: 0 <= i < |s| ==> s[i] == (i == p)
  }

  /** Where one step moves a single mark. */
  function Moved(limit: nat, k: nat, j: nat, p: nat): nat
    requires k > 0 && j > 0
  {
    var l := Lower(p, j);
    if l >= limit then p else if BitSet(l, 2 * k) then l else l + j
  }

  lemma StepMovesAt(limit: nat, k: nat, j: nat, s: seq<bool>, p: nat, i: nat)
    requires PowerOfTwo(|s|) && PowerOfTwo(j) && 0 < j <= k < |s| && Single(s, p) && i < |s|
    ensures Apply(Less01, Wiring(limit)(k, j), s)[i] == (i == Moved(limit, k, j, p))
  {
    PairEnds(p, j, |s|);
    PairEnds(i, j, |s|);
    Apply01(Wiring(limit)(k, j), s, i);
    assert Wiring(limit)(k, j)(i) == WireAt(limit, k, j, i);
  }

  lemma StepMoves(limit: nat, k: nat, j: nat, s: seq<bool>, p: nat)
    requires PowerOfTwo(|s|) && PowerOfTwo(j) && 0 < j <= k < |s| && Single(s, p)
    ensures Single(Apply(Less01, Wiring(limit)(k, j), s), Moved(limit, k, j, p))
  {
    var n, r := |s|, Apply(Less01, Wiring(limit)(k, j), s);
    PairEnds(p, j, n);
    forall i {:trigger r[i]} | 0 <= i < n ensures r[i] == (i == Moved(limit, k, j, p)) {
      StepMovesAt(limit, k, j, s, p, i);
    }
  }

  predicate Even(p: nat) { p % 2 == 0 }

  /** A step with even j does not change the parity of a position. */
  lemma ParityKept(limit: nat, k: nat, j: nat, p: nat)
    requires k > 0 && j > 0 && Even(j)
    ensures Even(Moved(limit, k, j, p)) == Even(p)
  {
    var l, m := Lower(p, j), Moved(limit, k, j, p);
    assert l == p || p == l + j;
    assert m == p || m == l || m == l + j;
    EvenShift(l, j);
  }

  lemma EvenShift(l: nat, j: nat)
    requires Even(j)
    ensures Even(l + j) == Even(l)
  {
  }

  /** In the last block of 2k, every stage but the last one sorts downwards. */
  lemma LastBlockDown(n: nat, k: nat, j: nat, p: nat)
    requires PowerOfTwo(n) && PowerOfTwo(k) && PowerOfTwo(j) && j <= k && 2 * k < n && n - 2 * k <= p < n
    ensures n - 2 * k <= Lower(p, j) && Lower(p, j) + j < n && BitSet(Lower(p, j), 2 * k)
  {
    PairInLastBlock(n, k, j, p);
    LastBlockBit(n, k, Lower(p, j));
  }

  lemma PairInLastBlock(n: nat, k: nat, j: nat, p: nat)
    requires PowerOfTwo(n) && PowerOfTwo(k) && PowerOfTwo(j) && j <= k && 2 * k < n && n - 2 * k <= p < n
    ensures n - 2 * k <= Lower(p, j) && Lower(p, j) + j < n
  {
    PowerDivides(j, n);
    LastOfBlock(n, k, j);
    var C := BlockOf(p, j, n);
    AboveAligned(n - 2 * k, C, 2 * j, p);
    BitInBlock(C, j, p);
  }

  lemma LastBlockBit(n: nat, k: nat, p: nat)
    requires PowerOfTwo(n) && PowerOfTwo(k) && 2 * k < n && n - 2 * k <= p < n
    ensures BitSet(p, 2 * k)
  {
    DoublePower(k);
    PowerDivides(2 * k, n);
    var B := BlockOf(p, 2 * k, n);
    TopBlock(n, 4 * k, B);
    BitInBlock(B, 2 * k, p);
  }

  /** Two aligned blocks of d that end at or below n: one containing a position of the last d is the last. */
  lemma {:induction false} TopBlock(n: nat, d: nat, B: nat)
    requires d > 0 && Aligned(n, d) && Aligned(B, d) && n < B + 2 * d && B + d <= n
    ensures B + d == n
  {
    if B > 0 { TopBlock(n - d, d, B - d); }
  }

  lemma {:induction false} AboveAligned(A: nat, C: nat, d: nat, p: nat)
    requires d > 0 && Aligned(A, d) && Aligned(C, d) && A <= p < C + d
    ensures A <= C
  {
    if C > 0 && A > 0 { AboveAligned(A - d, C - d, d, p - d); }
  }

  lemma LastOfBlock(n: nat, k: nat, j: nat)
    requires PowerOfTwo(n) && PowerOfTwo(k) && PowerOfTwo(j) && j <= k && 2 * k < n
    ensures Aligned(n - 2 * k, 2 * j)
  {
    DoublePower(k);
    DoublePower(j);
    PowerDivides(2 * j, n);
    Halves(n, 2 * j);
    if j == k {
      assert Aligned(n, 2 * k);
    } else {
      PowerDivides(2 * j, 2 * k);
      Halves(2 * k, 2 * j);
      AlignedDifference(n, 2 * k, 2 * j);
    }
  }

  lemma {:induction false} AlignedDifference(a: nat, b: nat, d: nat)
    requires d > 0 && Aligned(a, d) && Aligned(b, d) && b <= a
    ensures Aligned(a - b, d)
  {
    if b > 0 { AlignedDifference(a - d, b - d, d); }
  }

  /** Through a stage that is not the last, a mark at an even place of the last block stays at one. */
  lemma {:induction false} StageKeepsEven(limit: nat, k: nat, j: nat, s: seq<bool>, p: nat) returns (p': nat)
    requires PowerOfTwo(|s|) && PowerOfTwo(k) && PowerOfTwo(j) && j <= k && 2 * k < |s|
    requires Single(s, p) && Even(p) && |s| - 2 * k <= p
    ensures Single(Stage(Less01, Wiring(limit), k, j, s), p') && Even(p') && |s| - 2 * k <= p'
  {
    var s', q := Apply(Less01, Wiring(limit)(k, j), s), Moved(limit, k, j, p);
    StepMoves(limit, k, j, s, p);
    LastBlockDown(|s|, k, j, p);
    if j == 1 {
      EvenIsLower(p, |s|);
      p' := q;
    } else {
      ParityKept(limit, k, j, p);
      p' := StageKeepsEven(limit, k, j / 2, s', q);
    }
  }

  lemma EvenIsLower(p: nat, n: nat)
    requires PowerOfTwo(n) && 1 < n && p < n && Even(p)
    ensures Lower(p, 1) == p
  {
    PowerDivides(1, n);
    var B := BlockOf(p, 1, n);
    AlignedEven(B);
    BitInBlock(B, 1, p);
  }

  lemma {:induction false} AlignedEven(B: nat)
    requires Aligned(B, 2)
    ensures Even(B)
  {
    if B > 0 { AlignedEven(B - 2); }
  }

  lemma {:induction false} StagesKeepEven(limit: nat, k: nat, s: seq<bool>) returns (p: nat)
    requires PowerOfTwo(|s|) && PowerOfTwo(k) && 2 * k <= |s| && Single(s, |s| - 2)
    ensures Single(Staged(Less01, Wiring(limit), k, s), p) && Even(p) && |s| - 2 * k <= p
  {
    if k == 1 {
      p := |s| - 2;
    } else {
      p := StagesKeepEven(limit, k / 2, s);
      p := StageKeepsEven(limit, k / 2, k / 2, Staged(Less01, Wiring(limit), k / 2, s), p);
    }
  }

  /** In the last stage, the mark stays at an even place until the last step, which cannot bring it to the end. */
  lemma {:induction false} LastStageMisses(limit: nat, j: nat, s: seq<bool>, p: nat) returns (p': nat)
    requires PowerOfTwo(|s|) && PowerOfTwo(j) && 2 * j <= |s| && limit + 2 <= |s|
    requires Single(s, p) && Even(p)
    ensures Single(Stage(Less01, Wiring(limit), |s| / 2, j, s), p') && p' != |s| - 1
  {
    var k := |s| / 2;
    var s', q := Apply(Less01, Wiring(limit)(k, j), s), Moved(limit, k, j, p);
    StepMoves(limit, k, j, s, p);
    if j == 1 {
      EvenIsLower(p, |s|);
      p' := q;
    } else {
      ParityKept(limit, k, j, p);
      p' := LastStageMisses(limit, j / 2, s', q);
    }
  }

  /** If the chunks leave out two positions, a largest element at the last but one place never gets to the end. */
  lemma BitonicMisses(limit: nat, s: seq<bool>)
    requires PowerOfTwo(|s|) && limit + 2 <= |s| && Single(s, |s| - 2)
    ensures !Sorted(Less01, Staged(Less01, Wiring(limit), |s|, s))
  {
    var n := |s|;
    var p := StagesKeepEven(limit, n / 2, s);
    var r := Staged(Less01, Wiring(limit), n / 2, s);
    var q := LastStageMisses(limit, n / 2, r, p);
    var z := Staged(Less01, Wiring(limit), n, s);
    assert z == Stage(Less01, Wiring(limit), n / 2, n / 2, r);
    assert z[q] && !z[n - 1] && Less01(z[n - 1], z[q]);
  }

  /** sort_bitonic sorts every array of the given length. */
  ghost predicate SortsAll<V(!new)>(cmp: (V, V) -> bool, count: nat, threads: nat)
    requires threads > 0
  {
    forall items: seq<V> :: |items| == count ==> SortedPermutation(cmp, items, Outcome(cmp, threads, items))
  }

  /** The marks of a sorted array are sorted. */
  lemma MarksSorted<V(!new)>(cmp: (V, V) -> bool, v: V, out: seq<V>)
    requires StrictWeak(cmp) && Sorted(cmp, out)
    ensures Sorted(Less01, Marks(cmp, v, out))
  {
    forall i, j | 0 <= i < j < |out| ensures !Less01(Marks(cmp, v, out)[j], Marks(cmp, v, out)[i]) {
      assert !cmp(out[j], out[i]);
    }
  }

  lemma Unreached<V(!new)>(cmp: (V, V) -> bool, count: nat, threads: nat, lo: V, hi: V) returns (items: seq<V>)
    requires StrictWeak(cmp) && threads > 0 && PowerOfTwo(count) && cmp(lo, hi) && count % threads > 1
    ensures |items| == count && !Sorted(cmp, Outcome(cmp, threads, items))
  {
    var limit := Reach(count, threads);
    items := seq(count, i => if i == count - 2 then hi else lo);
    var out := Outcome(cmp, threads, items);
    StagedMarks(cmp, hi, Wiring(limit), count, items);
    BitonicMisses(limit, Marks(cmp, hi, items));
    if Sorted(cmp, out) { MarksSorted(cmp, hi, out); }
  }

  /**
   The exact condition: as soon as two elements can be told apart, sort_bitonic sorts every array of
   a power-of-two length if and only if at most one position is left over by the chunks.
   */
  lemma BitonicSortsExactly<V(!new)>(cmp: (V, V) -> bool, count: nat, threads: nat, lo: V, hi: V)
    requires StrictWeak(cmp) && threads > 0 && PowerOfTwo(count) && cmp(lo, hi)
    ensures SortsAll(cmp, count, threads) <==> count % threads <= 1
  {
    if count % threads <= 1 {
      forall items: seq<V> | |items| == count
        ensures SortedPermutation(cmp, items, Outcome(cmp, threads, items))
      {
        BitonicSorts(cmp, Reach(count, threads), items);
      }
    } else {
      var items := Unreached(cmp, count, threads, lo, hi);
      assert !SortedPermutation(cmp, items, Outcome(cmp, threads, items));
    }
  }
}
