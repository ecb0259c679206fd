/**
 The recursive merge sort.  A merge copies the left half as it is and the right half backwards, and
 then takes from both ends of the copy, so that no loop has to test for the end of a half.
 */
module MergeRecursive {
  import opened Order
  import opened Windows

  /** Of the elements at i, ..., j none must come before the one that the merge takes from an end. */
  ghost predicate Least<T>(cmp: (T, T) -> bool, v: seq<T>, i: int, j: int)
    requires 0 <= i <= j < |v|
  {
    NotBelow(cmp, v, i, j, if cmp(v[i], v[j]) then v[i] else v[j])
  }

  ghost predicate EndsLeast<T>(cmp: (T, T) -> bool, v: seq<T>, l: int, r: int)
    requires 0 <= l && r < |v|
  {
    forall i: int, j: int :: l <= i <= j <= r ==> Least(cmp, v, i, j)
  }

  /** What goes up to `mid` and down from there has its least element at an end, wherever it is cut. */
  lemma UpAndDown<T(!new)>(cmp: (T, T) -> bool, s: seq<T>, v: seq<T>, l: int, mid: int, r: int)
    requires StrictWeak(cmp) && 0 <= l <= mid < r < |s|
    requires SortedWindow(cmp, s, l, mid) && SortedWindow(cmp, s, mid + 1, r) && Backwards(s, v, l, mid, r)
    ensures EndsLeast(cmp, v, l, r)
  {
    forall i: int, j: int | l <= i <= j <= r ensures Least(cmp, v, i, j) {
      var c := if cmp(v[i], v[j]) then v[i] else v[j];
      forall x | i <= x <= j ensures !cmp(v[x], c) {
        if x <= mid { assert !cmp(v[x], v[i]); } else { assert !cmp(v[x], v[j]); }
      }
    }
  }

  /** v is s with the elements after mid in reverse order. */
  ghost predicate Backwards<T>(s: seq<T>, v: seq<T>, l: int, mid: int, r: int) {
    && 0 <= l <= mid < r < |s| == |v|
    && forall y {:trigger v[y]} :: 0 <= y < |v| ==> v[y] == if mid < y <= r then s[r - (y - mid - 1)] else s[y]
  }

  lemma BackwardsShuffled<T>(s: seq<T>, v: seq<T>, l: int, mid: int, r: int)
    requires Backwards(s, v, l, mid, r)
    ensures Shuffled(s, v, l, r)
  {
    var q := seq(|s|, y requires 0 <= y < |s| => if mid < y <= r then r - (y - mid - 1) else y);
    RearrangedMultiset(s, v, q);
  }

  /** The elements before k are in order and none of the later ones must come before them. */
  ghost predicate FirstInOrder<T>(cmp: (T, T) -> bool, s: seq<T>, l: int, k: int, r: int)
    requires 0 <= l && k <= r + 1 <= |s|
  {
    forall y, x :: l <= y < k && y < x <= r ==> !cmp(s[x], s[y])
  }

  lemma TakeLeftEnd<T>(cmp: (T, T) -> bool, s: seq<T>, l: int, k: int, r: int)
    requires 0 <= l <= k <= r < |s| && FirstInOrder(cmp, s, l, k, r) && NotBelow(cmp, s, k, r, s[k])
    ensures FirstInOrder(cmp, s, l, k + 1, r)
  {
  }

  lemma TakeRightEnd<T>(cmp: (T, T) -> bool, s: seq<T>, l: int, k: int, r: int) returns (t: seq<T>)
    requires 0 <= l <= k <= r < |s| && FirstInOrder(cmp, s, l, k, r) && NotBelow(cmp, s, k, r, s[r])
    ensures Moved(s, t, k, r) && FirstInOrder(cmp, t, l, k + 1, r) && Shuffled(s, t, l, r)
  {
    t := seq(|s|, y requires 0 <= y < |s| => if y == k then s[r] else if k < y <= r then s[y - 1] else s[y]);
    MovedDown(s, t, l, k, r);
  }

  /** The elements still to be merged, v[i..j], are at k, ..., r of s. */
  ghost predicate Rest<T>(v: seq<T>, i: int, s: seq<T>, k: int, r: int) {
    && 0 <= i <= k <= r + 1 <= |s| == |v|
    && forall y {:trigger s[y]} :: k <= y <= r ==> s[y] == v[i + (y - k)]
  }

  lemma RestIsLeast<T>(cmp: (T, T) -> bool, v: seq<T>, i: int, j: int, s: seq<T>, k: int, r: int)
    requires Rest(v, i, s, k, r) && k <= r && j == i + (r - k) && j <= r && Least(cmp, v, i, j)
    ensures NotBelow(cmp, s, k, r, if cmp(v[i], v[j]) then s[k] else s[r])
  {
  }

  /** The merge loop: temp[l..r] holds v. */
  method MergeInward<T>(items: array<T>, temp: array<T>, l: int, r: int, cmp: (T, T) -> bool, ghost v: seq<T>)
    requires 0 <= l <= r < items.Length == |v| <= temp.Length && items != temp
    requires EndsLeast(cmp, v, l, r)
    requires forall y {:trigger temp[y]} :: l <= y <= r ==> temp[y] == v[y]
    requires forall y {:trigger items[y]} :: 0 <= y < l || r < y < items.Length ==> items[y] == v[y]
    modifies items
    ensures Shuffled(v, items[..], l, r) && SortedWindow(cmp, items[..], l, r)
  {
    ghost var s := v;
    var i, j, k := l, r, l;
    while k <= r
      invariant l <= i <= k <= r + 1 && j == i + (r - k) && |s| == items.Length
      invariant forall y {:trigger items[y]} :: 0 <= y < k || r < y < items.Length ==> items[y] == s[y]
      invariant Rest(v, i, s, k, r)
      invariant Shuffled(v, s, l, r) && FirstInOrder(cmp, s, l, k, r)
    {
      assert Least(cmp, v, i, j);
      RestIsLeast(cmp, v, i, j, s, k, r);
      if cmp(temp[i], temp[j]) {
        TakeLeftEnd(cmp, s, l, k, r);
        items[k] := temp[i];
        i := i + 1;
      } else {
        s := TakeRightEnd(cmp, s, l, k, r);
        items[k] := temp[j];
        j := j - 1;
      }
      k := k + 1;
    }
    assert items[..] == s;
  }

  /** The two copying loops: the left half as it is, the right half backwards. */
  method CopyBackwards<T>(items: array<T>, temp: array<T>, left: int, mid: int, right: int) returns (ghost v: seq<T>)
    requires items != temp && temp.Length >= items.Length && 0 <= left <= mid < right < items.Length
    modifies temp
    ensures Backwards(items[..], v, left, mid, right)
    ensures forall y {:trigger temp[y]} :: left <= y <= right ==> temp[y] == v[y]
  {
    var rightMid := right - mid;
    v := seq(items.Length, y requires 0 <= y < items.Length reads items =>
      if mid < y <= right then items[right - (y - mid - 1)] else items[y]);
    var i := mid;
    while i >= left
      invariant left - 1 <= i <= mid
      invariant forall y {:trigger temp[y]} :: i < y <= mid ==> temp[y] == items[y]
    {
      temp[i] := items[i];
      i := i - 1;
    }
    var j := 1;
    while j <= rightMid
      invariant 1 <= j <= rightMid + 1
      invariant forall y {:trigger temp[y]} :: left <= y <= mid ==> temp[y] == items[y]
      invariant forall y {:trigger temp[y]} :: right - j + 1 < y <= right ==> temp[y] == items[right - (y - mid - 1)]
    {
      temp[right - j + 1] := items[j + mid];
      j := j + 1;
    }
  }

  /** Two sorted halves become a sorted whole. */
  method MergeHalves<T(!new)>(items: array<T>, temp: array<T>, left: int, mid: int, right: int, cmp: (T, T) -> bool)
    requires StrictWeak(cmp) && items != temp && temp.Length >= items.Length && 0 <= left <= mid < right < items.Length
    requires SortedWindow(cmp, items[..], left, mid) && SortedWindow(cmp, items[..], mid + 1, right)
    modifies items, temp
    ensures Shuffled(old(items[..]), items[..], left, right) && SortedWindow(cmp, items[..], left, right)
  {
    ghost var s := items[..];
    ghost var v := CopyBackwards(items, temp, left, mid, right);
    UpAndDown(cmp, s, v, left, mid, right);
    BackwardsShuffled(s, v, left, mid, right);
    MergeInward(items, temp, left, right, cmp, v);
    ShuffledWithin(s, v, items[..], left, right, left, right);
  }

  /** sort_merge_impl. */
  method SortMergeImpl<T(!new)>(items: array<T>, temp: array<T>, left: int, right: int, cmp: (T, T) -> bool)
    requires StrictWeak(cmp) && items != temp && temp.Length >= items.Length && 0 <= left <= right + 1 <= items.Length
    modifies items, temp
    ensures Shuffled(old(items[..]), items[..], left, right) && SortedWindow(cmp, items[..], left, right)
    decreases right - left + 1
  {
    if right - left < 1 {
      return;
    }
    var mid := (left + right) / 2;
    ghost var was := items[..];
    SortMergeImpl(items, temp, left, mid, cmp);
    ghost var s := items[..];
    SortMergeImpl(items, temp, mid + 1, right, cmp);
    ghost var t := items[..];
    HalvesSorted(cmp, was, s, t, left, mid, right);
    MergeHalves(items, temp, left, mid, right, cmp);
    ShuffledWithin(was, t, items[..], left, right, left, right);
  }

  lemma HalvesSorted<T>(cmp: (T, T) -> bool, was: seq<T>, s: seq<T>, t: seq<T>, left: int, mid: int, right: int)
    requires 0 <= left <= mid < right < |was|
    requires Shuffled(was, s, left, mid) && SortedWindow(cmp, s, left, mid)
    requires Shuffled(s, t, mid + 1, right)
    ensures Shuffled(was, t, left, right) && SortedWindow(cmp, t, left, mid)
  {
    ShuffledWithin(was, s, t, mid + 1, right, left, right);
  }

  /** sort_merge: any array is sorted, with a buffer that is large enough. */
  method SortMerge<T(!new)>(items: array<T>, temp: array<T>, cmp: (T, T) -> bool)
    requires StrictWeak(cmp) && items != temp && temp.Length >= items.Length
    modifies items, temp
    ensures SortedPermutation(cmp, old(items[..]), items[..])
  {
    SortMergeImpl(items, temp, 0, items.Length - 1, cmp);
    WholeWindow(cmp, old(items[..]), items[..]);
  }
}
