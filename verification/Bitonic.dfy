/**
 The bitonic network of sort_bitonic: which positions stage k, step j compares, and why the stages
 sort every input.
 */
module Bitonic {
  import opened Order
  import opened Networks
  import opened Positions

  /** The pair that position i belongs to in step j is named by its lower end, i with bit j cleared. */
  function Lower(i: nat, j: nat): nat
    requires j > 0
  {
    if BitSet(i, j) && j <= i then i - j else i
  }

  /**
   Step j of stage k.  Only pairs whose lower end is below `limit` are compared: that is how far the
   chunks of all threads reach.  A pair is put in ascending order when bit 2k of its lower end is 0.
   */
  function Wiring(limit: nat): Network {
    (k: nat, j: nat) => (i: nat) => WireAt(limit, k, j, i)
  }

  function WireAt(limit: nat, k: nat, j: nat, i: nat): Wire {
    if k == 0 || j == 0 then Idle else
    var l := Lower(i, j);
    var up := !BitSet(l, 2 * k);
    if l >= limit then Idle
    else if l == i then (if up then KeepMin(i + j) else KeepMax(i + j))
    else if up then KeepMax(i - j) else KeepMin(i - j)
  }

  lemma BlockPaired(limit: nat, k: nat, j: nat, B: nat, i: nat, n: nat)
    requires 0 < j && 0 < k && Aligned(B, 2 * j) && B <= i < B + 2 * j <= n
    ensures PairedAt(Wiring(limit)(k, j), i, n)
  {
    BitInBlock(B, j, i);
    if i >= B + j {
      BitInBlock(B, j, i - j);
      assert Lower(i - j, j) == Lower(i, j);
    } else {
      BitInBlock(B, j, i + j);
      assert Lower(i + j, j) == Lower(i, j);
    }
  }

  lemma PartnersAgree(limit: nat, k: nat, j: nat, n: nat)
    requires PowerOfTwo(k) && PowerOfTwo(j) && PowerOfTwo(n) && 0 < j <= k < n
    ensures Paired(Wiring(limit)(k, j), n)
  {
    PowerDivides(j, n);
    forall i | 0 <= i < n ensures PairedAt(Wiring(limit)(k, j), i, n) {
      var B := BlockOf(i, j, n);
      BlockPaired(limit, k, j, B, i, n);
    }
  }

  /** Every step of the network pairs positions up, so running it only rearranges the input. */
  lemma BitonicPermutes<T>(cmp: (T, T) -> bool, limit: nat, s: seq<T>)
    requires PowerOfTwo(|s|)
    ensures multiset(Staged(cmp, Wiring(limit), |s|, s)) == multiset(s)
  {
    var n := |s|;
    forall k, j | 0 < j <= k < n && PowerOfTwo(k) && PowerOfTwo(j) ensures Paired(Wiring(limit)(k, j), n) {
      PartnersAgree(limit, k, j, n);
    }
    StagedPermutes(cmp, Wiring(limit), n, s);
  }

  // ----- zero-one windows -----

  /** In the window [lo, hi), exactly the positions in [a, b) hold v. */
  ghost predicate Shape(s: seq<bool>, lo: nat, hi: nat, a: int, b: int, v: bool)
    requires hi <= |s|
  {
    && lo <= a <= b <= hi
    && forall i {:trigger s[i]} :: lo <= i < hi ==> s[i] == (v == (a <= i < b))
  }

  ghost predicate Bitonic01(s: seq<bool>, lo: nat, hi: nat)
    requires hi <= |s|
  {
    exists a, b, v :: Shape(s, lo, hi, a, b, v)
  }

  ghost predicate Constant(s: seq<bool>, lo: nat, hi: nat, v: bool)
    requires hi <= |s|
  {
    forall i {:trigger s[i]} :: lo <= i < hi ==> s[i] == v
  }

  /** Stage k sorts the aligned block of 2k positions around [lo, hi) in one direction. */
  ghost predicate Directed(lo: nat, hi: nat, k: nat, up: bool)
    requires k > 0
  {
    forall i :: lo <= i < hi ==> BitSet(i, 2 * k) == !up
  }

  /** r is s after every pair (i, i + j) of the block at B is put in order. */
  ghost predicate PairsOrdered(s: seq<bool>, r: seq<bool>, B: nat, j: nat, up: bool)
    requires |r| == |s| && B + 2 * j <= |s|
  {
    && (forall i {:trigger r[i]} :: B <= i < B + j ==>
          r[i] == (if up then s[i] && s[i + j] else s[i] || s[i + j]))
    && (forall i {:trigger r[i]} :: B + j <= i < B + 2 * j ==>
          r[i] == (if up then s[i - j] || s[i] else s[i - j] && s[i]))
  }

  /** What one step does to an aligned block of 2j positions that lies inside the limit. */
  lemma StepOnBlock(limit: nat, k: nat, j: nat, B: nat, s: seq<bool>, up: bool)
    requires 0 < j && 0 < k && Aligned(B, 2 * j) && B + 2 * j <= |s| && B + 2 * j <= limit + 1
    requires Directed(B, B + 2 * j, k, up)
    ensures PairsOrdered(s, Apply(Less01, Wiring(limit)(k, j), s), B, j, up)
  {
    var r := Apply(Less01, Wiring(limit)(k, j), s);
    forall i {:trigger r[i]} | B <= i < B + 2 * j
      ensures i < B + j ==> r[i] == (if up then s[i] && s[i + j] else s[i] || s[i + j])
      ensures i >= B + j ==> r[i] == (if up then s[i - j] || s[i] else s[i - j] && s[i])
    {
      BitInBlock(B, j, i);
      var w := WireAt(limit, k, j, i);
      assert Wiring(limit)(k, j)(i) == w;
      assert r[i] == Keep(Less01, w, s, i);
      if i < B + j {
        assert w == if up then KeepMin(i + j) else KeepMax(i + j);
        assert Less01(s[i], s[i + j]) == (!s[i] && s[i + j]);
      } else {
        assert Lower(i, j) == i - j;
        assert w == if up then KeepMax(i - j) else KeepMin(i - j);
        assert Less01(s[i], s[i - j]) == (!s[i] && s[i - j]);
      }
    }
  }

  /** The shapes of the conjunction and the disjunction of the two halves of a bitonic block. */
  lemma HalvesCombine(s: seq<bool>, B: nat, j: nat, a: int, b: int, v: bool)
    returns (aa: int, ab: int, av: bool, oa: int, ob: int, ov: bool)
    requires B + 2 * j <= |s| && Shape(s, B, B + 2 * j, a, b, v)
    ensures B <= aa <= ab <= B + j && B <= oa <= ob <= B + j
    ensures forall i {:trigger s[i]} :: B <= i < B + j ==> (s[i] && s[i + j]) == (av == (aa <= i < ab))
    ensures forall i {:trigger s[i]} :: B <= i < B + j ==> (s[i] || s[i + j]) == (ov == (oa <= i < ob))
    ensures (aa == ab && av) || (oa == ob && !ov)
  {
    if a < B + j < b {
      var lo, hi := if b - j <= a then b - j else a, if b - j <= a then a else b - j;
      if v == (b - j <= a) {
        aa, ab, av, oa, ob, ov := B, B, true, lo, hi, false;
      } else {
        aa, ab, av, oa, ob, ov := lo, hi, true, B, B, false;
      }
    } else {
      var c, d := if b <= B + j then a else a - j, if b <= B + j then b else b - j;
      if v {
        aa, ab, av, oa, ob, ov := B, B, true, c, d, true;
      } else {
        aa, ab, av, oa, ob, ov := c, d, false, B, B, false;
      }
    }
  }

  /**
   The half cleaner: on a bitonic block, one step leaves two bitonic halves, one of which is
   constant at its end of the order.
   */
  lemma HalfCleaner(limit: nat, k: nat, j: nat, B: nat, s: seq<bool>, up: bool)
    requires 0 < j && 0 < k && Aligned(B, 2 * j) && B + 2 * j <= |s| && B + 2 * j <= limit + 1
    requires Directed(B, B + 2 * j, k, up) && Bitonic01(s, B, B + 2 * j)
    ensures var r := Apply(Less01, Wiring(limit)(k, j), s);
            && Bitonic01(r, B, B + j) && Bitonic01(r, B + j, B + 2 * j)
            && (Constant(r, B, B + j, !up) || Constant(r, B + j, B + 2 * j, up))
  {
    var r := Apply(Less01, Wiring(limit)(k, j), s);
    StepOnBlock(limit, k, j, B, s, up);
    OrderedPairsSplit(s, r, B, j, up);
  }

  lemma OrderedPairsSplit(s: seq<bool>, r: seq<bool>, B: nat, j: nat, up: bool)
    requires |r| == |s| && B + 2 * j <= |s| && PairsOrdered(s, r, B, j, up) && Bitonic01(s, B, B + 2 * j)
    ensures Bitonic01(r, B, B + j) && Bitonic01(r, B + j, B + 2 * j)
    ensures Constant(r, B, B + j, !up) || Constant(r, B + j, B + 2 * j, up)
  {
    var a, b, v :| Shape(s, B, B + 2 * j, a, b, v);
    var aa, ab, av, oa, ob, ov := HalvesCombine(s, B, j, a, b, v);
    forall i {:trigger r[i]} | B + j <= i < B + 2 * j
      ensures r[i] == if up then ov == (oa + j <= i < ob + j) else av == (aa + j <= i < ab + j)
    {
      var x := i - j;
      assert (s[x] && s[x + j]) == (av == (aa <= x < ab)) && (s[x] || s[x + j]) == (ov == (oa <= x < ob));
    }
    if up {
      assert Shape(r, B, B + j, aa, ab, av);
      assert Shape(r, B + j, B + 2 * j, oa + j, ob + j, ov);
    } else {
      assert Shape(r, B, B + j, oa, ob, ov);
      assert Shape(r, B + j, B + 2 * j, aa + j, ab + j, av);
    }
  }

  /** The steps of a stage leave a constant block constant. */
  lemma {:induction false} StageKeepsConstant(limit: nat, k: nat, j: nat, B: nat, s: seq<bool>, up: bool, v: bool)
    requires 0 < k && PowerOfTwo(j) && Aligned(B, 2 * j) && B + 2 * j <= |s| && B + 2 * j <= limit + 1
    requires Directed(B, B + 2 * j, k, up) && Constant(s, B, B + 2 * j, v)
    ensures Constant(Stage(Less01, Wiring(limit), k, j, s), B, B + 2 * j, v)
  {
    var s' := Apply(Less01, Wiring(limit)(k, j), s);
    StepOnBlock(limit, k, j, B, s, up);
    assert Constant(s', B, B + 2 * j, v);
    if j > 1 {
      Halves(B, j);
      StageKeepsConstant(limit, k, j / 2, B, s', up, v);
      StageKeepsConstant(limit, k, j / 2, B + j, s', up, v);
    }
  }

  /** The steps j, j/2, ..., 1 of a stage sort a bitonic block of 2j positions. */
  lemma {:induction false} StageSortsBlock(limit: nat, k: nat, j: nat, B: nat, s: seq<bool>, up: bool)
    requires 0 < k && PowerOfTwo(j) && Aligned(B, 2 * j) && B + 2 * j <= |s| && B + 2 * j <= limit + 1
    requires Directed(B, B + 2 * j, k, up) && Bitonic01(s, B, B + 2 * j)
    ensures WindowSorted(Less01, Stage(Less01, Wiring(limit), k, j, s), B, B + 2 * j, up)
  {
    var s' := Apply(Less01, Wiring(limit)(k, j), s);
    HalfCleaner(limit, k, j, B, s, up);
    var r := Stage(Less01, Wiring(limit), k, j / 2, s');
    if j > 1 {
      Halves(B, j);
      StageSortsBlock(limit, k, j / 2, B, s', up);
      StageSortsBlock(limit, k, j / 2, B + j, s', up);
      if Constant(s', B, B + j, !up) {
        StageKeepsConstant(limit, k, j / 2, B, s', up, !up);
      } else {
        StageKeepsConstant(limit, k, j / 2, B + j, s', up, up);
      }
    }
    assert Constant(r, B, B + j, !up) || Constant(r, B + j, B + 2 * j, up);
    assert WindowSorted(Less01, r, B, B + j, up);
    assert WindowSorted(Less01, r, B + j, B + 2 * j, up);
  }

  // ----- whole stages -----

  /** If an aligned block of k positions starts at B, it is sorted, ascending exactly when bit k of B is 0. */
  ghost predicate BlockSorted<T>(cmp: (T, T) -> bool, k: nat, s: seq<T>, B: nat)
    requires k > 0
  {
    Aligned(B, k) && B + k <= |s| ==> WindowSorted(cmp, s, B, B + k, !BitSet(B, k))
  }

  ghost predicate BlocksSorted<T>(cmp: (T, T) -> bool, k: nat, s: seq<T>)
    requires k > 0
  {
    forall B: nat :: BlockSorted(cmp, k, s, B)
  }

  /** An ascending run followed by a descending run is bitonic. */
  lemma UpDownIsBitonic(s: seq<bool>, B: nat, k: nat)
    requires B + 2 * k <= |s|
    requires WindowSorted(Less01, s, B, B + k, true) && WindowSorted(Less01, s, B + k, B + 2 * k, false)
    ensures Bitonic01(s, B, B + 2 * k)
  {
    var a := Threshold(s, B, B + k, true);
    var b := Threshold(s, B + k, B + 2 * k, false);
    assert Shape(s, B, B + 2 * k, a, b, true);
  }

  lemma StageDoublesBlocks(limit: nat, k: nat, s: seq<bool>)
    requires PowerOfTwo(k) && |s| <= limit + 1 && BlocksSorted(Less01, k, s)
    ensures BlocksSorted(Less01, 2 * k, Stage(Less01, Wiring(limit), k, k, s))
  {
    var r := Stage(Less01, Wiring(limit), k, k, s);
    forall B: nat | Aligned(B, 2 * k) && B + 2 * k <= |s|
      ensures WindowSorted(Less01, r, B, B + 2 * k, !BitSet(B, 2 * k))
    {
      Halves(B, k);
      assert BlockSorted(Less01, k, s, B) && BlockSorted(Less01, k, s, B + k);
      UpDownIsBitonic(s, B, k);
      forall i | B <= i < B + 2 * k ensures BitSet(i, 2 * k) == BitSet(B, 2 * k) {
        BlockSharesBit(B, 2 * k, i);
      }
      StageSortsBlock(limit, k, k, B, s, !BitSet(B, 2 * k));
    }
  }

  lemma {:induction false} StagedBlocks01(limit: nat, k: nat, s: seq<bool>)
    requires PowerOfTwo(k) && |s| <= limit + 1
    ensures BlocksSorted(Less01, k, Staged(Less01, Wiring(limit), k, s))
  {
    if k > 1 {
      StagedBlocks01(limit, k / 2, s);
      StageDoublesBlocks(limit, k / 2, Staged(Less01, Wiring(limit), k / 2, s));
    }
  }

  /**
   After the stages below k, every aligned block of k elements is sorted, ascending exactly when
   bit k of its start is 0, for every input and every strict weak order.
   */
  lemma StagedBlocks<T(!new)>(cmp: (T, T) -> bool, limit: nat, k: nat, s: seq<T>)
    requires StrictWeak(cmp) && PowerOfTwo(k) && |s| <= limit + 1
    ensures BlocksSorted(cmp, k, Staged(cmp, Wiring(limit), k, s))
  {
    forall B: nat | Aligned(B, k) && B + k <= |s|
      ensures WindowSorted(cmp, Staged(cmp, Wiring(limit), k, s), B, B + k, !BitSet(B, k))
    {
      forall b: seq<bool> | |b| == |s|
        ensures WindowSorted(Less01, Staged(Less01, Wiring(limit), k, b), B, B + k, !BitSet(B, k))
      {
        StagedBlocks01(limit, k, b);
        assert BlockSorted(Less01, k, Staged(Less01, Wiring(limit), k, b), B);
      }
      ZeroOnePrinciple(cmp, Wiring(limit), k, s, B, B + k, !BitSet(B, k));
    }
  }

  /** The whole network sorts, even if the pair that would start at the very last position is left out. */
  lemma BitonicSorts<T(!new)>(cmp: (T, T) -> bool, limit: nat, s: seq<T>)
    requires StrictWeak(cmp) && PowerOfTwo(|s|) && |s| <= limit + 1
    ensures SortedPermutation(cmp, s, Staged(cmp, Wiring(limit), |s|, s))
  {
    StagedBlocks(cmp, limit, |s|, s);
    BitonicPermutes(cmp, limit, s);
    assert BlockSorted(cmp, |s|, Staged(cmp, Wiring(limit), |s|, s), 0);
  }
}
