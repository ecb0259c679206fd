/**
 The parallel sort_merge_iterative comes to an end: a bound for the steps that a thread has before it
 in a round.
 */
module MergeEnds {
  import opened Basics
  import opened Order
  import opened Merging
  import opened Phases
  import opened FairRuns
  import opened MergeThreads

  function Minus(a: nat, b: nat): nat {
    if a > b then a - b else 0
  }

  /** How many elements of the block still have to be merged. */
  function Unmerged<V>(count: nat, k: nat, l: Point<V>): nat
    requires !l.Seek? && !l.Copy? && !l.CopyPut?
  {
    Minus(l.left + k, l.i) + Minus(Min(l.left + 2 * k, count), l.j)
  }

  /** How many steps a thread has left in a block of 2k elements: four for each to merge, two for each to copy back. */
  function StepsInBlock<V>(count: nat, k: nat, l: Point<V>): int {
    match l
    case Seek(_) => 0
    case Test(_, _, _, _) => 4 * Unmerged(count, k, l) + 4 * k + 1
    case GotRight(_, _, _, _, _) => 4 * Unmerged(count, k, l) + 4 * k
    case TakeLeft(_, _, _, _) => 4 * Unmerged(count, k, l) + 4 * k - 1
    case TakeRight(_, _, _, _) => 4 * Unmerged(count, k, l) + 4 * k - 1
    case PutLeft(_, _, _, _, _) => 4 * Unmerged(count, k, l) + 4 * k - 2
    case PutRight(_, _, _, _, _) => 4 * Unmerged(count, k, l) + 4 * k - 2
    case Copy(left, m) => 2 * Minus(Min(left + 2 * k, count), m)
    case CopyPut(left, m, _) => 2 * Minus(Min(left + 2 * k, count), m) - 1
  }

  /** More than the steps in one block. */
  function BlockCost(k: nat): nat {
    12 * k + 3
  }

  /** What the blocks from here on cost, less what has been done in the first one. */
  function Together(cost: nat, blocks: nat, inBlock: int): nat {
    if blocks + 1 + inBlock > cost then blocks + 1 + inBlock - cost else 0
  }

  function StepsFrom<V>(count: nat, k: nat, l: Point<V>): nat {
    var blocks := BlockCost(k) * Minus(count, l.left);
    if !l.Seek? then Together(BlockCost(k), blocks, StepsInBlock(count, k, l))
    else if l.left + k < count then blocks else 0
  }

  function StepsLeft<V>(count: nat): Steps<Point<V>> {
    (r: nat, t: nat, l: Point<V>) => StepsFrom(count, RunLength(r), l)
  }

  lemma NextIsCheaper(k: nat, count: nat, left: nat, stride: nat)
    requires stride > 0 && left < count
    ensures BlockCost(k) * Minus(count, left + stride) + BlockCost(k) <= BlockCost(k) * Minus(count, left)
  {
    var n, n' := Minus(count, left), Minus(count, left + stride);
    assert BlockCost(k) * (n' + 1) == BlockCost(k) * n' + BlockCost(k);
    assert BlockCost(k) * (n - n' - 1) >= 0;
    assert BlockCost(k) * n == BlockCost(k) * (n' + 1) + BlockCost(k) * (n - n' - 1);
  }

  /** l' is further on in the same block. */
  predicate Further<V>(count: nat, k: nat, l: Point<V>, l': Point<V>) {
    && l'.left == l.left && !l.Seek? && !l'.Seek?
    && 0 <= StepsInBlock(count, k, l) && StepsInBlock(count, k, l') < StepsInBlock(count, k, l)
  }

  lemma FurtherIsCheaper<V>(count: nat, k: nat, l: Point<V>, l': Point<V>)
    requires Further(count, k, l, l') && l.left < count
    ensures StepsFrom(count, k, l') < StepsFrom(count, k, l)
  {
    NextIsCheaper(k, count, l.left, 1);
    LessTogether(BlockCost(k), BlockCost(k) * Minus(count, l.left), StepsInBlock(count, k, l),
        StepsInBlock(count, k, l'));
  }

  lemma LessTogether(cost: nat, blocks: nat, x: int, y: int)
    requires cost <= blocks && 0 <= x && y < x
    ensures Together(cost, blocks, y) < Together(cost, blocks, x)
  {
  }

  /** The loop variables are within the block's two runs, and a run from which an element is taken has one. */
  predicate InRuns<V>(count: nat, k: nat, l: Point<V>) {
    match l
    case Seek(_) => true
    case Test(_, _, _, _) => true
    case GotRight(left, _, i, j, _) => i < left + k && j < Min(left + 2 * k, count)
    case TakeLeft(left, _, i, _) => i < left + k
    case PutLeft(left, _, i, _, _) => i < left + k
    case TakeRight(left, _, _, j) => j < Min(left + 2 * k, count)
    case PutRight(left, _, _, j, _) => j < Min(left + 2 * k, count)
    case Copy(_, _) => true
    case CopyPut(left, m, _) => m < Min(left + 2 * k, count)
  }

  lemma PointInRuns<V>(cmp: (V, V) -> bool, count: nat, k: nat, l: Point<V>, s: seq<V>, result: seq<V>)
    requires |s| == |result| == count && PointOk(cmp, count, k, l, s, result)
    ensures InRuns(count, k, l)
  {
  }

  /** Every step inside a block goes further. */
  lemma InBlockFurther<V>(cmp: (V, V) -> bool, count: nat, k: nat, stride: nat, l: Point<V>, v: V)
    requires k > 0 && InRuns(count, k, l)
    requires !l.Seek? && !(l.Copy? && l.m >= Min(l.left + 2 * k, count))
    ensures var a := Act(cmp, count, k, stride, l);
            && (a.Load? ==> Further(count, k, l, a.receive(v)))
            && (a.Store? || a.Local? ==> Further(count, k, l, a.next))
  {
    if l.Test? { TestFurther(cmp, count, k, stride, l, v); }
    else if l.GotRight? { GotRightFurther(cmp, count, k, stride, l, v); }
    else if l.TakeLeft? || l.TakeRight? { TakeFurther(cmp, count, k, stride, l, v); }
    else if l.PutLeft? { PutLeftFurther(cmp, count, k, stride, l, v); }
    else if l.PutRight? { PutRightFurther(cmp, count, k, stride, l, v); }
    else { CopyFurther(cmp, count, k, stride, l, v); }
  }

  lemma TestFurther<V>(cmp: (V, V) -> bool, count: nat, k: nat, stride: nat, l: Point<V>, v: V)
    requires k > 0 && InRuns(count, k, l) && l.Test?
    ensures var a := Act(cmp, count, k, stride, l);
            && (a.Load? ==> Further(count, k, l, a.receive(v)))
            && (a.Store? || a.Local? ==> Further(count, k, l, a.next))
  {
  }

  lemma GotRightFurther<V>(cmp: (V, V) -> bool, count: nat, k: nat, stride: nat, l: Point<V>, v: V)
    requires k > 0 && InRuns(count, k, l) && l.GotRight?
    ensures var a := Act(cmp, count, k, stride, l);
            && (a.Load? ==> Further(count, k, l, a.receive(v)))
            && (a.Store? || a.Local? ==> Further(count, k, l, a.next))
  {
  }

  lemma TakeFurther<V>(cmp: (V, V) -> bool, count: nat, k: nat, stride: nat, l: Point<V>, v: V)
    requires k > 0 && InRuns(count, k, l) && (l.TakeLeft? || l.TakeRight?)
    ensures var a := Act(cmp, count, k, stride, l);
            && (a.Load? ==> Further(count, k, l, a.receive(v)))
            && (a.Store? || a.Local? ==> Further(count, k, l, a.next))
  {
  }

  lemma PutLeftFurther<V>(cmp: (V, V) -> bool, count: nat, k: nat, stride: nat, l: Point<V>, v: V)
    requires k > 0 && InRuns(count, k, l) && l.PutLeft?
    ensures var a := Act(cmp, count, k, stride, l);
            && (a.Load? ==> Further(count, k, l, a.receive(v)))
            && (a.Store? || a.Local? ==> Further(count, k, l, a.next))
  {
  }

  lemma PutRightFurther<V>(cmp: (V, V) -> bool, count: nat, k: nat, stride: nat, l: Point<V>, v: V)
    requires k > 0 && InRuns(count, k, l) && l.PutRight?
    ensures var a := Act(cmp, count, k, stride, l);
            && (a.Load? ==> Further(count, k, l, a.receive(v)))
            && (a.Store? || a.Local? ==> Further(count, k, l, a.next))
  {
  }

  lemma CopyFurther<V>(cmp: (V, V) -> bool, count: nat, k: nat, stride: nat, l: Point<V>, v: V)
    requires k > 0 && InRuns(count, k, l) && (l.CopyPut? || (l.Copy? && l.m < Min(l.left + 2 * k, count)))
    ensures var a := Act(cmp, count, k, stride, l);
            && (a.Load? ==> Further(count, k, l, a.receive(v)))
            && (a.Store? || a.Local? ==> Further(count, k, l, a.next))
  {
  }

  /** From block to block. */
  lemma BetweenCheaper<V(!new)>(cmp: (V, V) -> bool, count: nat, k: nat, stride: nat, l: Point<V>)
    requires k > 0 && stride > 0
    requires l.Seek? || (l.Copy? && l.left + k < count && l.m >= Min(l.left + 2 * k, count))
    ensures var a := Act(cmp, count, k, stride, l);
            a.Halt? || (a.Local? && StepsFrom(count, k, a.next) < StepsFrom(count, k, l))
  {
    if l.left < count {
      NextIsCheaper(k, count, l.left, stride);
    }
  }

  lemma PointShrinks<V(!new)>(cmp: (V, V) -> bool, count: nat, threads: nat, r: nat, t: nat, l: Point<V>, s: seq<V>,
      result: seq<V>, m: seq<V>)
    requires threads > 0 && |s| == |result| == count && PointOk(cmp, count, RunLength(r), l, s, result)
    ensures ActionShrinks(SortMerge(cmp, count, threads), StepsLeft(count), r, t, l, m)
  {
    var k := RunLength(r);
    var stride := Stride(k, threads);
    var a := Act(cmp, count, k, stride, l);
    assert SortMerge(cmp, count, threads).act(r, t, l) == a;
    NextBlock(0, 2 * k, threads);
    if l.Seek? || (l.Copy? && l.m >= Min(l.left + 2 * k, count)) {
      BetweenCheaper(cmp, count, k, stride, l);
    } else {
      InABlock(cmp, count, k, l, s, result);
      PointInRuns(cmp, count, k, l, s, result);
      if a.Load? && a.cell < |m| {
        InBlockFurther(cmp, count, k, stride, l, m[a.cell]);
        FurtherIsCheaper(count, k, l, a.receive(m[a.cell]));
      }
      if a.Store? || a.Local? {
        InBlockFurther(cmp, count, k, stride, l, s[0]);
        FurtherIsCheaper(count, k, l, a.next);
      }
    }
  }

  lemma MergeShrinks<V(!new)>(cmp: (V, V) -> bool, count: nat, threads: nat)
    requires threads > 0
    ensures Shrinks(SortMerge(cmp, count, threads), MergeOutline(cmp, count, threads), StepsLeft(count))
  {
    var p, o := SortMerge(cmp, count, threads), MergeOutline(cmp, count, threads);
    forall r, t, l, m0: seq<V>, m: seq<V>
      | 0 <= r < p.rounds && 0 <= t < threads && |m0| == |m| == 2 * count && o.inv(r, t, l, m0, m)
      ensures ActionShrinks(p, StepsLeft(count), r, t, l, m)
    {
      PointShrinks(cmp, count, threads, r, t, l, m0[..count], Pass(cmp, RunLength(r), m0[..count]), m);
    }
  }

  /** Every fair interleaving ends: all threads return, and then the array is stably sorted, for good. */
  lemma MergeFairRunsEnd<V(!new)>(cmp: (V, V) -> bool, threads: nat, items: seq<V>, temp: seq<V>, f: nat -> nat)
    returns (end: nat, result: seq<V>)
    requires StrictWeak(cmp) && threads > 0 && |temp| == |items| && Fair(f, threads)
    ensures var p := SortMerge(cmp, |items|, threads);
            forall n: nat :: n >= end ==> Returned(p, result, At(p, items + temp, f, n))
    ensures |result| == 2 * |items| && result[..|items|] == Passes(cmp, 1, items)
    ensures StablySorted(cmp, items, result[..|items|])
  {
    var count := |items|;
    var p, o := SortMerge(cmp, count, threads), MergeOutline(cmp, count, threads);
    MergeSound(cmp, count, threads);
    MergeShrinks(cmp, count, threads);
    end := FairRunsFinish(p, o, StepsLeft(count), items + temp, f);
    result := Iterate(o.effect, p.rounds, items + temp);
    assert Returned(p, result, At(p, items + temp, f, end));
    MergeThreadsSort(cmp, threads, items, temp, Prefix(f, end), 0);
  }
}
