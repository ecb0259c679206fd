/**
 The bottom-up sort_merge_iterative on one thread, in place on an array and a buffer.
 */
module MergeSort {
  import opened Basics
  import opened Order
  import opened Merging
  import opened Positions

  /** sort_merge_iterative with a buffer: a stable sort of `items`. */
  method SortMergeIterative<T(!new)>(items: array<T>, temp: array<T>, cmp: (T, T) -> bool)
    requires StrictWeak(cmp) && items != temp && temp.Length >= items.Length
    modifies items, temp
    ensures items[..] == Passes(cmp, 1, old(items[..]))
    ensures StablySorted(cmp, old(items[..]), items[..])
  {
    var count := items.Length;
    var k := 1;
    while k < count
      invariant k >= 1
      invariant Passes(cmp, k, items[..]) == Passes(cmp, 1, old(items[..]))
      decreases count - k
    {
      OnePass(items, temp, k, cmp);
      k := k * 2;
    }
    MergeSortStable(cmp, old(items[..]));
  }

  /** The loop over `left` for one k. */
  method OnePass<T>(items: array<T>, temp: array<T>, k: nat, cmp: (T, T) -> bool)
    requires 0 < k && items != temp && temp.Length >= items.Length
    modifies items, temp
    ensures items[..] == Pass(cmp, k, old(items[..]))
  {
    var count := items.Length;
    ghost var s, result := items[..], Pass(cmp, k, items[..]);
    var left := 0;
    while left + k < count
      invariant Aligned(left, 2 * k)
      invariant forall y {:trigger items[y]} :: 0 <= y < left && y < count ==> items[y] == result[y]
      invariant forall y {:trigger items[y]} :: left <= y < count ==> items[y] == s[y]
      decreases count - left
    {
      var rght := left + k;
      var rend := rght + k;
      if rend > count { rend := count; }
      PassRemains(cmp, k, s, left, rend);
      MergeRuns(items, temp, left, rght, rend, cmp, s, result);
      left := left + k * 2;
    }
    if left <= count { PassTail(cmp, k, s, left); }
    assert forall y {:trigger items[y]} :: left <= y < count ==> s[y] == s[left..][y - left];
  }

  /** The three loops that merge items[left..rght] and items[rght..rend] into temp[left..rend]. */
  method MergeToTemp<T>(items: array<T>, temp: array<T>, left: nat, rght: nat, rend: nat, cmp: (T, T) -> bool,
      ghost s: seq<T>, ghost result: seq<T>)
    requires items != temp && temp.Length >= items.Length && left <= rght <= rend <= items.Length == |s| == |result|
    requires forall y {:trigger items[y]} :: left <= y < items.Length ==> items[y] == s[y]
    requires Remaining(cmp, s, left, rght, rght, rend, result, left)
    modifies temp
    ensures forall y {:trigger temp[y]} :: left <= y < rend ==> temp[y] == result[y]
  {
    var m, i, j := left, left, rght;
    while i < rght && j < rend
      invariant left <= i <= rght <= j <= rend && m == i + (j - rght)
      invariant Remaining(cmp, s, i, rght, j, rend, result, m)
      invariant forall y {:trigger temp[y]} :: left <= y < m ==> temp[y] == result[y]
      decreases rend - m
    {
      assert items[i] == s[i] && items[j] == s[j];
      if cmp(items[j], items[i]) {
        temp[m] := items[j];
        j := j + 1;
      } else {
        temp[m] := items[i];
        i := i + 1;
      }
      m := m + 1;
    }
    while i < rght
      invariant left <= i <= rght <= j <= rend && m == i + (j - rght) && (i < rght ==> j == rend)
      invariant Remaining(cmp, s, i, rght, j, rend, result, m)
      invariant forall y {:trigger temp[y]} :: left <= y < m ==> temp[y] == result[y]
    {
      assert items[i] == s[i];
      temp[m] := items[i];
      m, i := m + 1, i + 1;
    }
    while j < rend
      invariant i == rght <= j <= rend && m == i + (j - rght)
      invariant Remaining(cmp, s, i, rght, j, rend, result, m)
      invariant forall y {:trigger temp[y]} :: left <= y < m ==> temp[y] == result[y]
    {
      assert items[j] == s[j];
      temp[m] := items[j];
      m, j := m + 1, j + 1;
    }
  }

  /** The merge of items[left..rght] and items[rght..rend], through temp and back. */
  method MergeRuns<T>(items: array<T>, temp: array<T>, left: nat, rght: nat, rend: nat, cmp: (T, T) -> bool,
      ghost s: seq<T>, ghost result: seq<T>)
    requires items != temp && temp.Length >= items.Length && left <= rght <= rend <= items.Length == |s| == |result|
    requires forall y {:trigger items[y]} :: left <= y < items.Length ==> items[y] == s[y]
    requires Remaining(cmp, s, left, rght, rght, rend, result, left)
    modifies items, temp
    ensures forall y {:trigger items[y]} :: left <= y < rend ==> items[y] == result[y]
    ensures forall y {:trigger items[y]} :: 0 <= y < left || rend <= y < items.Length ==> items[y] == old(items[y])
  {
    MergeToTemp(items, temp, left, rght, rend, cmp, s, result);
    var m := left;
    while m < rend
      modifies items
      invariant left <= m <= rend
      invariant forall y {:trigger items[y]} :: left <= y < m ==> items[y] == temp[y]
      invariant forall y {:trigger items[y]} :: 0 <= y < left || m <= y < items.Length ==> items[y] == old(items[y])
    {
      items[m] := temp[m];
      m := m + 1;
    }
  }
}
