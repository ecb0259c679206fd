/**
 Bottom-up merging: what one pass of the iterative merge sorts does to the array, and why the
 passes for k = 1, 2, 4, ... sort it stably.
 */
module Merging {
  import opened Basics
  import opened Order
  import opened Positions

  /** The merge of two runs; the right run is drawn from only if its first element must come first. */
  function Merge<T>(cmp: (T, T) -> bool, a: seq<T>, b: seq<T>): (r: seq<T>)
    ensures |r| == |a| + |b|
  {
    if a == [] then b
    else if b == [] then a
    else if cmp(b[0], a[0]) then [b[0]] + Merge(cmp, a, b[1..])
    else [a[0]] + Merge(cmp, a[1..], b)
  }

  /** One pass: neighbouring runs of k elements are merged; a last run without a neighbour is left alone. */
  function Pass<T>(cmp: (T, T) -> bool, k: nat, s: seq<T>): (r: seq<T>)
    requires k > 0
    ensures |r| == |s|
    decreases |s|
  {
    if |s| <= k then s else
    var e := Min(2 * k, |s|);
    Merge(cmp, s[..k], s[k..e]) + Pass(cmp, k, s[e..])
  }

  /** The passes for k, 2k, 4k, ... */
  function Passes<T>(cmp: (T, T) -> bool, k: nat, s: seq<T>): (r: seq<T>)
    requires k > 0
    ensures |r| == |s|
    decreases if |s| > k then |s| - k else 0
  {
    if k >= |s| then s else Passes(cmp, 2 * k, Pass(cmp, k, s))
  }

  /** Every run of k elements, and the shorter run at the end, is sorted. */
  ghost predicate RunsSorted<T>(cmp: (T, T) -> bool, k: nat, s: seq<T>)
    requires k > 0
    decreases |s|
  {
    if |s| <= k then Sorted(cmp, s) else Sorted(cmp, s[..k]) && RunsSorted(cmp, k, s[k..])
  }

  // ----- merging two runs -----

  lemma {:induction false} MergeElements<T>(cmp: (T, T) -> bool, a: seq<T>, b: seq<T>)
    ensures multiset(Merge(cmp, a, b)) == multiset(a) + multiset(b)
  {
    if a != [] && b != [] {
      assert a == [a[0]] + a[1..] && b == [b[0]] + b[1..];
      if cmp(b[0], a[0]) { MergeElements(cmp, a, b[1..]); } else { MergeElements(cmp, a[1..], b); }
    }
  }

  lemma MergeMember<T>(cmp: (T, T) -> bool, a: seq<T>, b: seq<T>, x: T)
    ensures x in Merge(cmp, a, b) <==> x in a || x in b
  {
    MergeElements(cmp, a, b);
    assert x in Merge(cmp, a, b) <==> x in multiset(Merge(cmp, a, b));
  }

  lemma SortedCons<T>(cmp: (T, T) -> bool, x: T, s: seq<T>)
    requires Sorted(cmp, s) && forall y :: y in s ==> !cmp(y, x)
    ensures Sorted(cmp, [x] + s)
  {
  }

  lemma {:induction false} MergeSorted<T(!new)>(cmp: (T, T) -> bool, a: seq<T>, b: seq<T>)
    requires StrictWeak(cmp) && Sorted(cmp, a) && Sorted(cmp, b)
    ensures Sorted(cmp, Merge(cmp, a, b))
  {
    if a != [] && b != [] {
      var right := cmp(b[0], a[0]);
      var x := if right then b[0] else a[0];
      var a', b' := if right then a else a[1..], if right then b[1..] else b;
      MergeSorted(cmp, a', b');
      forall y | y in Merge(cmp, a', b') ensures !cmp(y, x) {
        MergeMember(cmp, a', b', y);
      }
      SortedCons(cmp, x, Merge(cmp, a', b'));
    }
  }

  /** If the first element of b comes before all of a, no element of a is tied with it. */
  lemma BeforeAll<T(!new)>(cmp: (T, T) -> bool, a: seq<T>, x: T, v: T)
    requires StrictWeak(cmp) && Sorted(cmp, a) && a != [] && cmp(x, a[0]) && Tied(cmp, v)(x)
    ensures Filter(Tied(cmp, v), a) == []
  {
    forall i | 0 <= i < |a| ensures !Tied(cmp, v)(a[i]) { assert cmp(x, a[i]); }
    FilterNone(Tied(cmp, v), a);
  }

  /** Tied elements keep their order, those of the left run before those of the right run. */
  lemma {:induction false} MergeStable<T(!new)>(cmp: (T, T) -> bool, a: seq<T>, b: seq<T>, v: T)
    requires StrictWeak(cmp) && Sorted(cmp, a) && Sorted(cmp, b)
    ensures Filter(Tied(cmp, v), Merge(cmp, a, b)) == Filter(Tied(cmp, v), a) + Filter(Tied(cmp, v), b)
  {
    var p := Tied(cmp, v);
    if a != [] && b != [] {
      if cmp(b[0], a[0]) {
        MergeStable(cmp, a, b[1..], v);
        RightFirst(cmp, a, b, v, Merge(cmp, a, b[1..]));
      } else {
        MergeStable(cmp, a[1..], b, v);
        LeftFirst(p, a, b, Merge(cmp, a[1..], b));
      }
    }
  }

  lemma RightFirst<T(!new)>(cmp: (T, T) -> bool, a: seq<T>, b: seq<T>, v: T, m: seq<T>)
    requires StrictWeak(cmp) && Sorted(cmp, a) && a != [] && b != [] && cmp(b[0], a[0])
    requires Filter(Tied(cmp, v), m) == Filter(Tied(cmp, v), a) + Filter(Tied(cmp, v), b[1..])
    ensures Filter(Tied(cmp, v), [b[0]] + m) == Filter(Tied(cmp, v), a) + Filter(Tied(cmp, v), b)
  {
    var p := Tied(cmp, v);
    FilterCons(p, b[0], m);
    var h, fa, fb := if p(b[0]) then [b[0]] else [], Filter(p, a), Filter(p, b[1..]);
    if p(b[0]) { BeforeAll(cmp, a, b[0], v); }
    OneIsEmpty(h, fa, fb);
  }

  lemma OneIsEmpty<T>(h: seq<T>, a: seq<T>, b: seq<T>)
    requires h == [] || a == []
    ensures h + (a + b) == a + (h + b)
  {
  }

  lemma LeftFirst<T>(p: T -> bool, a: seq<T>, b: seq<T>, m: seq<T>)
    requires a != [] && Filter(p, m) == Filter(p, a[1..]) + Filter(p, b)
    ensures Filter(p, [a[0]] + m) == Filter(p, a) + Filter(p, b)
  {
    FilterCons(p, a[0], m);
    var h := if p(a[0]) then [a[0]] else [];
    assert h + (Filter(p, a[1..]) + Filter(p, b)) == (h + Filter(p, a[1..])) + Filter(p, b);
  }

  // ----- one pass -----

  lemma {:induction false} RunsDrop<T>(cmp: (T, T) -> bool, k: nat, s: seq<T>)
    requires k > 0 && RunsSorted(cmp, k, s) && |s| > k
    ensures var e := Min(2 * k, |s|);
            Sorted(cmp, s[..k]) && Sorted(cmp, s[k..e]) && RunsSorted(cmp, k, s[e..])
  {
    var e := Min(2 * k, |s|);
    var t := s[k..];
    if |t| <= k {
      assert s[k..e] == t && s[e..] == [];
    } else {
      assert t[..k] == s[k..e] && t[k..] == s[e..];
    }
  }

  lemma {:induction false} PassSorts<T(!new)>(cmp: (T, T) -> bool, k: nat, s: seq<T>)
    requires StrictWeak(cmp) && k > 0 && RunsSorted(cmp, k, s)
    ensures RunsSorted(cmp, 2 * k, Pass(cmp, k, s))
    decreases |s|
  {
    if |s| > k {
      var e := Min(2 * k, |s|);
      RunsDrop(cmp, k, s);
      MergeSorted(cmp, s[..k], s[k..e]);
      PassSorts(cmp, k, s[e..]);
      var m, rest := Merge(cmp, s[..k], s[k..e]), Pass(cmp, k, s[e..]);
      if e == |s| {
        assert m + rest == m;
      } else {
        assert (m + rest)[..2 * k] == m && (m + rest)[2 * k..] == rest;
      }
    }
  }

  lemma {:induction false} PassStable<T(!new)>(cmp: (T, T) -> bool, k: nat, s: seq<T>, v: T)
    requires StrictWeak(cmp) && k > 0 && RunsSorted(cmp, k, s)
    ensures Filter(Tied(cmp, v), Pass(cmp, k, s)) == Filter(Tied(cmp, v), s)
    decreases |s|
  {
    if |s| > k {
      var e := Min(2 * k, |s|);
      RunsDrop(cmp, k, s);
      PassStable(cmp, k, s[e..], v);
      BlockStable(cmp, s[..k], s[k..e], s[e..], Pass(cmp, k, s[e..]), v);
      ThreeParts(s, k, e);
    }
  }

  lemma ThreeParts<T>(s: seq<T>, k: nat, e: nat)
    requires k <= e <= |s|
    ensures s[..k] + s[k..e] + s[e..] == s
  {
  }

  lemma BlockStable<T(!new)>(cmp: (T, T) -> bool, a: seq<T>, b: seq<T>, c: seq<T>, d: seq<T>, v: T)
    requires StrictWeak(cmp) && Sorted(cmp, a) && Sorted(cmp, b)
    requires Filter(Tied(cmp, v), d) == Filter(Tied(cmp, v), c)
    ensures Filter(Tied(cmp, v), Merge(cmp, a, b) + d) == Filter(Tied(cmp, v), a + b + c)
  {
    MergeStable(cmp, a, b, v);
    FilterAppend(Tied(cmp, v), Merge(cmp, a, b), d);
    FilterOfThree(Tied(cmp, v), a, b, c);
  }

  lemma FilterOfThree<T>(p: T -> bool, a: seq<T>, b: seq<T>, c: seq<T>)
    ensures Filter(p, a + b + c) == Filter(p, a) + Filter(p, b) + Filter(p, c)
  {
    FilterAppend(p, a + b, c);
    FilterAppend(p, a, b);
  }

  // ----- all passes -----

  lemma {:induction false} SingleRuns<T(!new)>(cmp: (T, T) -> bool, s: seq<T>)
    ensures RunsSorted(cmp, 1, s)
  {
    if |s| > 1 { SingleRuns(cmp, s[1..]); }
  }

  lemma {:induction false} PassesSort<T(!new)>(cmp: (T, T) -> bool, k: nat, s: seq<T>)
    requires StrictWeak(cmp) && k > 0 && RunsSorted(cmp, k, s)
    ensures StablySorted(cmp, s, Passes(cmp, k, s))
    decreases if |s| > k then |s| - k else 0
  {
    if k < |s| {
      PassSorts(cmp, k, s);
      PassesSort(cmp, 2 * k, Pass(cmp, k, s));
      forall v ensures Filter(Tied(cmp, v), Passes(cmp, k, s)) == Filter(Tied(cmp, v), s) {
        PassStable(cmp, k, s, v);
      }
    }
  }

  /** The iterative merge sort is a stable sort. */
  lemma MergeSortStable<T(!new)>(cmp: (T, T) -> bool, s: seq<T>)
    requires StrictWeak(cmp)
    ensures StablySorted(cmp, s, Passes(cmp, 1, s))
  {
    SingleRuns(cmp, s);
    PassesSort(cmp, 1, s);
  }

  // ----- a pass seen from one of its blocks -----

  /** What the pass leaves behind the first block is what it leaves of the rest. */
  lemma PassAfterBlock<T>(cmp: (T, T) -> bool, k: nat, s: seq<T>, lo: nat, hi: nat)
    requires k > 0 && 2 * k <= lo <= hi <= |s|
    ensures Pass(cmp, k, s)[lo..hi] == Pass(cmp, k, s[2 * k..])[lo - 2 * k..hi - 2 * k]
  {
    SecondPart(Merge(cmp, s[..k], s[k..2 * k]), Pass(cmp, k, s[2 * k..]), lo - 2 * k, hi - 2 * k);
  }

  /** In the block that starts at `left`, r holds the merge of the two runs of s. */
  ghost predicate BlockMerged<T>(cmp: (T, T) -> bool, k: nat, s: seq<T>, r: seq<T>, left: nat, e: nat)
    requires left + k <= e <= |s| == |r|
  {
    r[left..e] == Merge(cmp, s[left..left + k], s[left + k..e])
  }

  lemma BlockShift<T>(cmp: (T, T) -> bool, k: nat, d: nat, s: seq<T>, r: seq<T>, t: seq<T>, u: seq<T>, left: nat,
      e: nat)
    requires d <= left && left + k <= e <= |s| == |r| && t == s[d..] && |u| == |t|
    requires r[left..e] == u[left - d..e - d] && BlockMerged(cmp, k, t, u, left - d, e - d)
    ensures BlockMerged(cmp, k, s, r, left, e)
  {
    OfSuffix(s, d, left - d, left - d + k);
    OfSuffix(s, d, left - d + k, e - d);
  }

  lemma PassFirstBlock<T>(cmp: (T, T) -> bool, k: nat, s: seq<T>, e: nat)
    requires 0 < k < |s| && e == Min(2 * k, |s|)
    ensures BlockMerged(cmp, k, s, Pass(cmp, k, s), 0, e)
  {
    var m, rest := Merge(cmp, s[..k], s[k..e]), Pass(cmp, k, s[e..]);
    assert Pass(cmp, k, s) == m + rest;
    assert (m + rest)[0..e] == m;
    assert s[0..0 + k] == s[..k];
  }

  /** In the block of 2k that starts at `left`, the pass leaves the merge of its two runs. */
  lemma {:induction false} PassBlock<T>(cmp: (T, T) -> bool, k: nat, s: seq<T>, left: nat, e: nat)
    requires k > 0 && left + k < |s| && Aligned(left, 2 * k) && e == Min(left + 2 * k, |s|)
    ensures BlockMerged(cmp, k, s, Pass(cmp, k, s), left, e)
    decreases left
  {
    if left == 0 {
      PassFirstBlock(cmp, k, s, e);
    } else {
      PassBlock(cmp, k, s[2 * k..], left - 2 * k, e - 2 * k);
      PassNextBlock(cmp, k, s, left, e);
    }
  }

  lemma PassNextBlock<T>(cmp: (T, T) -> bool, k: nat, s: seq<T>, left: nat, e: nat)
    requires k > 0 && 2 * k <= left && left + k <= e <= |s|
    requires BlockMerged(cmp, k, s[2 * k..], Pass(cmp, k, s[2 * k..]), left - 2 * k, e - 2 * k)
    ensures BlockMerged(cmp, k, s, Pass(cmp, k, s), left, e)
  {
    PassAfterBlock(cmp, k, s, left, e);
    BlockShift(cmp, k, 2 * k, s, Pass(cmp, k, s), s[2 * k..], Pass(cmp, k, s[2 * k..]), left, e);
  }

  /** What is left after the last block that has two runs is not touched. */
  lemma {:induction false} PassTail<T>(cmp: (T, T) -> bool, k: nat, s: seq<T>, left: nat)
    requires k > 0 && left <= |s| <= left + k && Aligned(left, 2 * k)
    ensures Pass(cmp, k, s)[left..] == s[left..]
    decreases left
  {
    if left > 0 {
      PassTail(cmp, k, s[2 * k..], left - 2 * k);
      PassAfterBlock(cmp, k, s, left, |s|);
      OfSuffix(s, 2 * k, left - 2 * k, |s| - 2 * k);
    }
  }

  /** Drawing one element from the front of one of the runs. */
  lemma MergeStep<T>(cmp: (T, T) -> bool, s: seq<T>, i: nat, rght: nat, j: nat, rend: nat)
    requires i <= rght <= j <= rend <= |s|
    ensures i < rght && j < rend && cmp(s[j], s[i]) ==>
              Merge(cmp, s[i..rght], s[j..rend]) == [s[j]] + Merge(cmp, s[i..rght], s[j + 1..rend])
    ensures i < rght && !(j < rend && cmp(s[j], s[i])) ==>
              Merge(cmp, s[i..rght], s[j..rend]) == [s[i]] + Merge(cmp, s[i + 1..rght], s[j..rend])
    ensures i == rght && j < rend ==>
              Merge(cmp, s[i..rght], s[j..rend]) == [s[j]] + Merge(cmp, s[i..rght], s[j + 1..rend])
  {
    if i < rght { assert s[i..rght][1..] == s[i + 1..rght]; }
    if j < rend { assert s[j..rend][1..] == s[j + 1..rend]; }
  }

  /**
   result[d..rend] is what the merge loops still have to write when they stand at i in the left run
   and at j in the right run.
   */
  ghost predicate Remaining<T>(cmp: (T, T) -> bool, s: seq<T>, i: nat, rght: nat, j: nat, rend: nat, result: seq<T>,
      d: nat)
    requires i <= rght <= j <= rend <= |s| == |result|
    decreases rght - i + (rend - j)
  {
    if i < rght && (j == rend || !cmp(s[j], s[i])) then
      d < rend && result[d] == s[i] && Remaining(cmp, s, i + 1, rght, j, rend, result, d + 1)
    else if j < rend then
      d < rend && result[d] == s[j] && Remaining(cmp, s, i, rght, j + 1, rend, result, d + 1)
    else
      d == rend
  }

  lemma {:induction false} MergeRemains<T>(cmp: (T, T) -> bool, s: seq<T>, i: nat, rght: nat, j: nat, rend: nat,
      result: seq<T>, d: nat)
    requires i <= rght <= j <= rend <= |s| == |result| && d <= rend
    requires result[d..rend] == Merge(cmp, s[i..rght], s[j..rend])
    ensures Remaining(cmp, s, i, rght, j, rend, result, d)
    decreases rght - i + (rend - j)
  {
    MergeStep(cmp, s, i, rght, j, rend);
    if i < rght && (j == rend || !cmp(s[j], s[i])) {
      HeadAndTail(result, d, rend, s[i], Merge(cmp, s[i + 1..rght], s[j..rend]));
      MergeRemains(cmp, s, i + 1, rght, j, rend, result, d + 1);
    } else if j < rend {
      HeadAndTail(result, d, rend, s[j], Merge(cmp, s[i..rght], s[j + 1..rend]));
      MergeRemains(cmp, s, i, rght, j + 1, rend, result, d + 1);
    }
  }

  lemma HeadAndTail<T>(r: seq<T>, d: nat, e: nat, x: T, rest: seq<T>)
    requires d <= e <= |r| && r[d..e] == [x] + rest
    ensures d < e && r[d] == x && r[d + 1..e] == rest
  {
    assert r[d] == r[d..e][0];
    assert r[d + 1..e] == r[d..e][1..];
  }

  /** The merge loops of a block write what the pass leaves there. */
  lemma PassRemains<T>(cmp: (T, T) -> bool, k: nat, s: seq<T>, left: nat, rend: nat)
    requires k > 0 && left + k < |s| && Aligned(left, 2 * k) && rend == Min(left + 2 * k, |s|)
    ensures Remaining(cmp, s, left, left + k, left + k, rend, Pass(cmp, k, s), left)
  {
    PassBlock(cmp, k, s, left, rend);
    MergeRemains(cmp, s, left, left + k, left + k, rend, Pass(cmp, k, s), left);
  }
}
