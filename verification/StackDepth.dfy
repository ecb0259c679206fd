/**
 How many pairs the iterative quicksort keeps on its stack at once, as a function of the array: by
 recursion over the windows that each partition leaves.
 */
module StackDepth {
  import opened Order

  // ----- the partition as a function -----

  /** s with the elements at i and j exchanged. */
  function Exchanged<T>(s: seq<T>, i: nat, j: nat): (t: seq<T>)
    requires i <= j < |s|
    ensures |t| == |s|
  {
    s[i := s[j]][j := s[i]]
  }

  /** The loop of sort_quick_partition on a window whose pivot is at 0, from element i on. */
  function Scanned<T>(cmp: (T, T) -> bool, s: seq<T>, i: nat, mid: nat): (r: (seq<T>, nat))
    requires mid < i <= |s|
    ensures |r.0| == |s| && r.1 < |s|
    decreases |s| - i
  {
    if i == |s| then (s, mid)
    else if cmp(s[i], s[0]) then Scanned(cmp, Exchanged(s, mid + 1, i), i + 1, mid + 1)
    else Scanned(cmp, s, i + 1, mid)
  }

  function Middle(n: nat): nat
    requires n > 0
  {
    (n - 1) / 2
  }

  /** sort_quick_partition: the window that it leaves, and where its pivot is. */
  function Partitioned<T>(cmp: (T, T) -> bool, w: seq<T>): (r: (seq<T>, nat))
    requires w != []
    ensures |r.0| == |w| && r.1 < |w|
  {
    var r := Scanned(cmp, Exchanged(w, 0, Middle(|w|)), 1, 0);
    (Exchanged(r.0, 0, r.1), r.1)
  }

  /** The window that is sorted next, and the one that is kept on the stack. */
  function NextWindow<T>(cmp: (T, T) -> bool, w: seq<T>): (v: seq<T>)
    requires w != []
    ensures |v| <= |w| / 2
  {
    var r := Partitioned(cmp, w);
    if r.1 < Middle(|w|) then r.0[..r.1] else r.0[r.1 + 1..]
  }

  function KeptWindow<T>(cmp: (T, T) -> bool, w: seq<T>): (v: seq<T>)
    requires w != []
    ensures |v| < |w|
  {
    var r := Partitioned(cmp, w);
    if r.1 < Middle(|w|) then r.0[r.1 + 1..] else r.0[..r.1]
  }

  /** A window of at most this many elements is not partitioned. */
  const SHORT: nat := 32

  /**
   The largest number of pairs on the stack at once: one more than for the next window, or as many
   as for the kept one.
   */
  function Pairs<T>(cmp: (T, T) -> bool, w: seq<T>): nat
    decreases |w|
  {
    if |w| <= SHORT then 0 else
    var next, kept := 1 + Pairs(cmp, NextWindow(cmp, w)), Pairs(cmp, KeptWindow(cmp, w));
    if next >= kept then next else kept
  }

  // ----- bounds -----

  /** The largest that a window can be after p times going to the next window. */
  function Half(count: nat, p: nat): nat {
    if p == 0 then count else Half(count / 2, p - 1)
  }

  lemma {:induction false} HalfGrows(m: nat, n: nat, p: nat)
    requires m <= n
    ensures Half(m, p) <= Half(n, p)
  {
    if p > 0 { HalfGrows(m / 2, n / 2, p - 1); }
  }

  /** A window that is too short after p halvings needs at most p pairs. */
  lemma {:induction false} PairsBounded<T>(cmp: (T, T) -> bool, w: seq<T>, p: nat)
    requires Half(|w|, p) <= SHORT
    ensures Pairs(cmp, w) <= p
    decreases |w|
  {
    if |w| > SHORT {
      HalfGrows(|NextWindow(cmp, w)|, |w| / 2, p - 1);
      HalfGrows(|KeptWindow(cmp, w)|, |w|, p);
      PairsBounded(cmp, NextWindow(cmp, w), p - 1);
      PairsBounded(cmp, KeptWindow(cmp, w), p);
    }
  }

  /** The 32 slots hold 16 pairs; with fewer elements than this, that is enough for every array. */
  const LIMIT: nat := 33 * 0x1_0000

  lemma TwoHalves(count: nat, p: nat)
    ensures Half(count, p + 2) == Half(count / 4, p)
  {
    assert Half(count, p + 2) == Half(count / 2, p + 1) == Half(count / 2 / 2, p);
  }

  lemma EightHalves(count: nat, p: nat)
    ensures Half(count, p + 8) == Half(count / 256, p)
  {
    TwoHalves(count, p + 6);
    TwoHalves(count / 4, p + 4);
    TwoHalves(count / 16, p + 2);
    TwoHalves(count / 64, p);
  }

  lemma LimitIs(count: nat)
    ensures Half(count, 16) <= SHORT <==> count < LIMIT
  {
    EightHalves(count, 8);
    EightHalves(count / 256, 0);
  }

  /** With fewer elements no array needs a 17th pair. */
  lemma SixteenSuffice<T>(cmp: (T, T) -> bool, w: seq<T>)
    requires |w| < LIMIT
    ensures Pairs(cmp, w) <= 16
  {
    LimitIs(|w|);
    PairsBounded(cmp, w, 16);
  }

  lemma FifteenSuffice<T>(cmp: (T, T) -> bool, w: seq<T>)
    requires 2 * |w| < LIMIT
    ensures Pairs(cmp, w) <= 15
  {
    LimitIs(2 * |w|);
    assert Half(2 * |w|, 16) == Half(|w|, 15);
    PairsBounded(cmp, w, 15);
  }

  lemma PairsOfHalves<T>(cmp: (T, T) -> bool, w: seq<T>)
    requires |w| > SHORT
    ensures Pairs(cmp, w) <= 1 + Pairs(cmp, NextWindow(cmp, w)) || Pairs(cmp, w) <= Pairs(cmp, KeptWindow(cmp, w))
  {
  }

  /** With just as many elements the next window needs 16 pairs, so it has half of them. */
  lemma NextNeedsSixteen<T>(cmp: (T, T) -> bool, w: seq<T>)
    requires |w| == LIMIT && Pairs(cmp, w) > 16
    ensures Pairs(cmp, NextWindow(cmp, w)) == 16
  {
    PairsOfHalves(cmp, w);
    SixteenSuffice(cmp, KeptWindow(cmp, w));
    SixteenSuffice(cmp, NextWindow(cmp, w));
  }

  lemma NextIsHalf<T>(cmp: (T, T) -> bool, w: seq<T>)
    requires |w| == LIMIT && Pairs(cmp, w) > 16
    ensures 2 * |NextWindow(cmp, w)| >= LIMIT
  {
    NextNeedsSixteen(cmp, w);
    if 2 * |NextWindow(cmp, w)| < LIMIT { FifteenSuffice(cmp, NextWindow(cmp, w)); }
  }

  lemma HalvedIfLong<T>(cmp: (T, T) -> bool, w: seq<T>, h: nat)
    requires |w| == 2 * h > 0 && |NextWindow(cmp, w)| >= h
    ensures Partitioned(cmp, w).1 == h - 1
  {
  }

  /** So only an array whose first partition is in the middle overflows then. */
  lemma OnlyIfHalved<T>(cmp: (T, T) -> bool, w: seq<T>)
    requires |w| == LIMIT && Pairs(cmp, w) > 16
    ensures Partitioned(cmp, w).1 == LIMIT / 2 - 1
  {
    NextIsHalf(cmp, w);
    HalvedIfLong(cmp, w, LIMIT / 2);
  }

  // ----- ascending arrays -----

  /** Every element must come before all later ones. */
  ghost predicate Ascending<T>(cmp: (T, T) -> bool, s: seq<T>) {
    forall x: nat, y: nat :: x < y < |s| ==> Precedes(cmp, s, x, y)
  }

  predicate Precedes<T>(cmp: (T, T) -> bool, s: seq<T>, x: nat, y: nat)
    requires x < y < |s|
  {
    cmp(s[x], s[y])
  }

  /** If exactly the elements up to q come before the one at 0, nothing moves. */
  lemma {:induction false} ScannedStill<T>(cmp: (T, T) -> bool, s: seq<T>, q: nat, i: nat)
    requires q < |s| && 1 <= i <= |s|
    requires forall j {:trigger s[j]} :: 1 <= j < |s| ==> (cmp(s[j], s[0]) <==> j <= q)
    ensures Scanned(cmp, s, i, if i - 1 <= q then i - 1 else q) == (s, q)
    decreases |s| - i
  {
    if i < |s| {
      ScannedStill(cmp, s, q, i + 1);
      assert i <= q ==> Exchanged(s, i, i) == s;
    }
  }

  /** An ascending window is left as it is, and split in the middle. */
  lemma AscendingStill<T(!new)>(cmp: (T, T) -> bool, w: seq<T>)
    requires Asymmetric(cmp) && Ascending(cmp, w) && w != []
    ensures Partitioned(cmp, w) == (w, Middle(|w|))
  {
    var q := Middle(|w|);
    var s := Exchanged(w, 0, q);
    forall j {:trigger s[j]} | 1 <= j < |s| ensures cmp(s[j], s[0]) <==> j <= q {
      if j < q { assert Precedes(cmp, w, j, q); }
      else if j == q { assert Precedes(cmp, w, 0, q); }
      else { assert Precedes(cmp, w, q, j); }
    }
    ScannedStill(cmp, s, q, 1);
    assert Exchanged(s, 0, q) == w;
  }

  /** Ascending arrays need as many pairs as there can be. */
  lemma {:induction false} AscendingNeeds<T(!new)>(cmp: (T, T) -> bool, w: seq<T>, p: nat)
    requires Asymmetric(cmp) && Ascending(cmp, w)
    requires Half(|w|, p) > SHORT
    ensures Pairs(cmp, w) > p
  {
    HalfAtMost(|w|, p);
    AscendingStill(cmp, w);
    if p > 0 {
      var next := NextWindow(cmp, w);
      assert next == w[Middle(|w|) + 1..] && |next| == |w| / 2;
      forall x: nat, y: nat | x < y < |next| ensures Precedes(cmp, next, x, y) {
        assert Precedes(cmp, w, Middle(|w|) + 1 + x, Middle(|w|) + 1 + y);
      }
      AscendingNeeds(cmp, next, p - 1);
    }
  }

  lemma {:induction false} HalfAtMost(n: nat, p: nat)
    ensures Half(n, p) <= n
  {
    if p > 0 { HalfAtMost(n / 2, p - 1); }
  }

  lemma AscendingOverflows<T(!new)>(cmp: (T, T) -> bool, w: seq<T>)
    requires Asymmetric(cmp) && Ascending(cmp, w) && |w| >= LIMIT
    ensures Pairs(cmp, w) > 16
  {
    LimitIs(|w|);
    AscendingNeeds(cmp, w, 16);
  }

  /** What the length alone says. */
  lemma SeventeenthPair<T(!new)>(cmp: (T, T) -> bool, w: seq<T>)
    requires Asymmetric(cmp)
    ensures |w| < LIMIT ==> Pairs(cmp, w) <= 16
    ensures |w| >= LIMIT && Ascending(cmp, w) ==> Pairs(cmp, w) > 16
    ensures |w| == LIMIT && Pairs(cmp, w) > 16 ==> Partitioned(cmp, w).1 == LIMIT / 2 - 1
  {
    if |w| < LIMIT { SixteenSuffice(cmp, w); }
    if |w| >= LIMIT && Ascending(cmp, w) { AscendingOverflows(cmp, w); }
    if |w| == LIMIT && Pairs(cmp, w) > 16 { OnlyIfHalved(cmp, w); }
  }
}
