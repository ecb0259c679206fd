/**
 The recursive quicksort on Hoare's partition, whose inner loops test no bounds, and the insertion
 sort that it leaves short ranges to.
 */
module QuickSort {
  import opened Order
  import opened Windows

  // ----- insertion sort, which finishes short ranges -----

  /** sort_insertion on the `count` elements from position `base` on. */
  method SortInsertion<T(!new)>(items: array<T>, base: nat, count: nat, cmp: (T, T) -> bool)
    requires StrictWeak(cmp) && base + count <= items.Length
    modifies items
    ensures Shuffled(old(items[..]), items[..], base, base + count - 1)
    ensures SortedWindow(cmp, items[..], base, base + count - 1)
  {
    ghost var was, last := items[..], base + count - 1;
    ghost var now := was;
    var i := 1;
    while i < count
      invariant 1 <= i && (i <= count || count == 0)
      invariant now == items[..] && Shuffled(was, now, base, last)
      invariant count > 0 ==> SortedWindow(cmp, now, base, base + i - 1)
    {
      ghost var before := now;
      ghost var h := Insert(items, base, base + i, cmp);
      now := items[..];
      MovedDown(before, now, base, h, base + i);
      SortedAfterMove(cmp, before, now, base, h, base + i);
      ShuffledWithin(was, before, now, base, base + i, base, last);
      i := i + 1;
    }
  }

  /** The inner loop of sort_insertion: the element at `last` moves down to h. */
  method Insert<T(!new)>(items: array<T>, base: nat, last: nat, cmp: (T, T) -> bool) returns (ghost h: int)
    requires base <= last < items.Length
    modifies items
    ensures base <= h <= last && Moved(old(items[..]), items[..], h, last)
    ensures forall y {:trigger old(items[y])} :: h <= y < last ==> cmp(old(items[last]), old(items[y]))
    ensures h == base || !cmp(old(items[last]), old(items[h - 1]))
  {
    ghost var was := items[..];
    var x := items[last];
    var j: int := last - 1;
    while j >= base && cmp(x, items[j])
      invariant base - 1 <= j < last
      invariant forall y {:trigger items[y]} :: 0 <= y < items.Length ==>
                  items[y] == if j + 1 < y <= last then was[y - 1] else was[y]
      invariant forall y {:trigger was[y]} :: j < y < last ==> cmp(x, was[y])
    {
      items[j + 1] := items[j];
      j := j - 1;
    }
    items[j + 1] := x;
    h := j + 1;
  }

  lemma SortedAfterMove<T(!new)>(cmp: (T, T) -> bool, s: seq<T>, t: seq<T>, l: int, h: int, last: int)
    requires StrictWeak(cmp) && Moved(s, t, h, last) && 0 <= l <= h && SortedWindow(cmp, s, l, last - 1)
    requires forall y {:trigger s[y]} :: h <= y < last ==> cmp(s[last], s[y])
    requires h == l || !cmp(s[last], s[h - 1])
    ensures SortedWindow(cmp, t, l, last)
  {
    forall x, y | l <= x < y <= last ensures !cmp(t[y], t[x]) {
      if y == h && x < h - 1 { assert !cmp(s[h - 1], s[x]); }
    }
  }

  // ----- the recursive quicksort -----

  /**
   The two scans of one turn of the partition loop.  Neither leaves [l..r]: the upward scan stops at n
   at the latest, and the downward one at m.
   */
  method Scan<T(!new)>(items: array<T>, l: int, r: int, m0: int, n0: int, pivot: T,
      cmp: (T, T) -> bool) returns (m: int, n: int)
    requires Asymmetric(cmp) && 0 <= l && l - 1 <= m0 < n0 <= r < items.Length
    requires NotAbove(cmp, items[..], l, m0, pivot) && NotBelow(cmp, items[..], n0, r, pivot)
    ensures m0 < m <= n <= n0
    ensures NotAbove(cmp, items[..], l, m - 1, pivot) && NotBelow(cmp, items[..], n + 1, r, pivot)
    ensures !cmp(items[m], pivot) && (m < n ==> n < n0 && !cmp(pivot, items[n]))
  {
    m, n := m0 + 1, n0;
    while cmp(items[m], pivot)
      invariant m0 < m <= n && NotAbove(cmp, items[..], l, m - 1, pivot)
      decreases n - m
    {
      m := m + 1;
    }
    while m < n
      invariant m <= n <= n0 && NotBelow(cmp, items[..], n, r, pivot)
      decreases n
    {
      n := n - 1;
      if !cmp(pivot, items[n]) { break; }
    }
  }

  /** One turn of the partition loop: the scans and the exchange of what they found. */
  method Turn<T(!new)>(items: array<T>, l: int, r: int, m0: int, n0: int, pivot: T, cmp: (T, T) -> bool,
      ghost was: seq<T>)
    returns (m: int, n: int)
    requires Asymmetric(cmp) && 0 <= l && l - 1 <= m0 < n0 <= r < items.Length && items[r] == pivot
    requires Shuffled(was, items[..], l, r)
    requires NotAbove(cmp, items[..], l, m0, pivot) && NotBelow(cmp, items[..], n0, r, pivot)
    modifies items
    ensures m0 < m <= n <= n0 && items[r] == pivot && Shuffled(was, items[..], l, r)
    ensures NotAbove(cmp, items[..], l, m - 1, pivot) && NotBelow(cmp, items[..], n, r, pivot)
    ensures m < n ==> NotAbove(cmp, items[..], l, m, pivot)
  {
    m, n := Scan(items, l, r, m0, n0, pivot, cmp);
    ghost var before := items[..];
    Swap(items, m, n);
    SwappedWithin(was, before, items[..], l, r, m, n);
    SwapApart(cmp, before, items[..], l, r, m, n, pivot);
  }

  /**
   The partition of sort_quick_impl: the pivot goes to the far right, where it stops the upward scan,
   and the two scans meet.
   */
  method PartitionHoare<T(!new)>(items: array<T>, l: int, r: int, cmp: (T, T) -> bool) returns (m: int)
    requires Asymmetric(cmp) && 0 <= l < r < items.Length
    modifies items
    ensures l <= m <= r
    ensures Shuffled(old(items[..]), items[..], l, r)
    ensures NotAbove(cmp, items[..], l, m - 1, items[m]) && NotBelow(cmp, items[..], m + 1, r, items[m])
  {
    ghost var was := items[..];
    var pivotIndex := (l + r) / 2;
    Swap(items, pivotIndex, r);
    SwappedWithin(was, was, items[..], l, r, pivotIndex, r);
    m := l - 1;
    var n := r;
    var pivot := items[r];
    while true
      invariant l - 1 <= m < n <= r && items[r] == pivot
      invariant Shuffled(was, items[..], l, r)
      invariant NotAbove(cmp, items[..], l, m, pivot) && NotBelow(cmp, items[..], n, r, pivot)
      decreases r - m
    {
      m, n := Turn(items, l, r, m, n, pivot, cmp, was);
      if !(m < n) { break; }
    }
    ghost var before := items[..];
    Swap(items, m, r);
    SwappedWithin(was, before, items[..], l, r, m, r);
    PivotHome(cmp, before, items[..], l, r, m, pivot);
  }

  /** With the scans met at m, the pivot goes there. */
  lemma PivotHome<T>(cmp: (T, T) -> bool, s: seq<T>, t: seq<T>, l: int, r: int, m: int, pivot: T)
    requires 0 <= l <= m <= r < |s| && t == s[m := s[r]][r := s[m]] && s[r] == pivot
    requires NotAbove(cmp, s, l, m - 1, pivot) && NotBelow(cmp, s, m, r, pivot)
    ensures NotAbove(cmp, t, l, m - 1, t[m]) && NotBelow(cmp, t, m + 1, r, t[m])
  {
  }

  /** Each of the two elements found goes to its side. */
  lemma SwapApart<T>(cmp: (T, T) -> bool, s: seq<T>, t: seq<T>, l: int, r: int, m: int, n: int, pivot: T)
    requires 0 <= l <= m <= n <= r < |s| && t == s[m := s[n]][n := s[m]]
    requires NotAbove(cmp, s, l, m - 1, pivot) && NotBelow(cmp, s, n + 1, r, pivot)
    requires !cmp(s[m], pivot) && (m < n ==> !cmp(pivot, s[n]))
    ensures NotAbove(cmp, t, l, m - 1, pivot) && NotBelow(cmp, t, n, r, pivot)
    ensures m < n ==> NotAbove(cmp, t, l, m, pivot)
  {
  }

  /** Two sorted sides of an element that neither side oversteps. */
  lemma SortedAround<T(!new)>(cmp: (T, T) -> bool, s: seq<T>, l: int, r: int, m: int)
    requires StrictWeak(cmp) && 0 <= l <= m <= r < |s|
    requires SortedWindow(cmp, s, l, m - 1) && NotAbove(cmp, s, l, m - 1, s[m])
    requires SortedWindow(cmp, s, m + 1, r) && NotBelow(cmp, s, m + 1, r, s[m])
    ensures SortedWindow(cmp, s, l, r)
  {
    forall x, y | l <= x < y <= r ensures !cmp(s[y], s[x]) {
      if x < m < y { assert !cmp(s[y], s[m]) && !cmp(s[m], s[x]); }
    }
  }

  /** sort_quick_impl. */
  method SortQuickImpl<T(!new)>(items: array<T>, l: int, r: int, cmp: (T, T) -> bool)
    requires StrictWeak(cmp) && 0 <= l <= r + 1 <= items.Length
    modifies items
    ensures Shuffled(old(items[..]), items[..], l, r)
    ensures SortedWindow(cmp, items[..], l, r)
    decreases r - l + 1
  {
    if r <= l {
      return;
    }
    if r - l < 64 {
      SortInsertion(items, l, r - l + 1, cmp);
      return;
    }
    ghost var was := items[..];
    var m := PartitionHoare(items, l, r, cmp);
    ghost var s := items[..];
    SortQuickImpl(items, l, m - 1, cmp);
    ghost var t := items[..];
    SortQuickImpl(items, m + 1, r, cmp);
    BothSides(cmp, was, s, t, items[..], l, r, m);
  }

  lemma BothSides<T(!new)>(cmp: (T, T) -> bool, was: seq<T>, s: seq<T>, t: seq<T>, u: seq<T>, l: int, r: int, m: int)
    requires StrictWeak(cmp) && Shuffled(was, s, l, r) && l <= m <= r
    requires NotAbove(cmp, s, l, m - 1, s[m]) && NotBelow(cmp, s, m + 1, r, s[m])
    requires Shuffled(s, t, l, m - 1) && SortedWindow(cmp, t, l, m - 1)
    requires Shuffled(t, u, m + 1, r) && SortedWindow(cmp, u, m + 1, r)
    ensures Shuffled(was, u, l, r) && SortedWindow(cmp, u, l, r)
  {
    KeepsNotAbove(cmp, s, t, l, m - 1, s[m]);
    KeepsNotBelow(cmp, t, u, m + 1, r, s[m]);
    SortedAround(cmp, u, l, r, m);
  }

  /** sort_quick: any array is sorted. */
  method SortQuick<T(!new)>(items: array<T>, cmp: (T, T) -> bool)
    requires StrictWeak(cmp)
    modifies items
    ensures SortedPermutation(cmp, old(items[..]), items[..])
  {
    SortQuickImpl(items, 0, items.Length - 1, cmp);
    WholeWindow(cmp, old(items[..]), items[..]);
  }
}
