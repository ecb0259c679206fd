/**
 Rearrangements of a window [l..r] of a sequence, both ends included as in the quicksorts.
 */
module Windows {
  import opened Order

  /** b is a with the elements at l, ..., r rearranged and nothing else changed. */
  ghost predicate Shuffled<T>(a: seq<T>, b: seq<T>, l: int, r: int) {
    && |a| == |b| && 0 <= l <= r + 1 <= |a|
    && (forall x {:trigger b[x]} :: 0 <= x < l || r < x < |a| ==> b[x] == a[x])
    && multiset(a) == multiset(b)
  }

  /** The elements at l, ..., r are in order. */
  ghost predicate SortedWindow<T>(cmp: (T, T) -> bool, s: seq<T>, l: int, r: int)
    requires 0 <= l && r < |s|
  {
    forall x, y :: l <= x < y <= r ==> !cmp(s[y], s[x])
  }

  /** None of the elements at l, ..., r must come after p. */
  ghost predicate NotAbove<T>(cmp: (T, T) -> bool, s: seq<T>, l: int, r: int, p: T)
    requires 0 <= l && r < |s|
  {
    forall x :: l <= x <= r ==> !cmp(p, s[x])
  }

  /** None of the elements at l, ..., r must come before p. */
  ghost predicate NotBelow<T>(cmp: (T, T) -> bool, s: seq<T>, l: int, r: int, p: T)
    requires 0 <= l && r < |s|
  {
    forall x :: l <= x <= r ==> !cmp(s[x], p)
  }

  lemma SameMiddle<T>(p: multiset<T>, m: multiset<T>, m': multiset<T>, q: multiset<T>)
    requires p + m + q == p + m' + q
    ensures m == m'
  {
    forall v ensures m[v] == m'[v] {
      assert (p + m + q)[v] == (p + m' + q)[v];
    }
  }

  /** Where an element of the rearranged window came from. */
  lemma Origin<T>(a: seq<T>, b: seq<T>, l: int, r: int, x: int) returns (y: int)
    requires Shuffled(a, b, l, r) && l <= x <= r
    ensures l <= y <= r && b[x] == a[y]
  {
    assert a == a[..l] + a[l..r + 1] + a[r + 1..];
    assert b == b[..l] + b[l..r + 1] + b[r + 1..];
    assert a[..l] == b[..l] && a[r + 1..] == b[r + 1..];
    SameMiddle(multiset(a[..l]), multiset(a[l..r + 1]), multiset(b[l..r + 1]), multiset(a[r + 1..]));
    assert b[l..r + 1][x - l] == b[x];
    assert b[x] in multiset(b[l..r + 1]);
    assert b[x] in a[l..r + 1];
    var k :| 0 <= k < |a[l..r + 1]| && a[l..r + 1][k] == b[x];
    y := l + k;
  }

  /** A rearrangement after another one, of a smaller window. */
  lemma ShuffledWithin<T>(a: seq<T>, b: seq<T>, c: seq<T>, l': int, r': int, l: int, r: int)
    requires Shuffled(a, b, l, r) && Shuffled(b, c, l', r') && 0 <= l <= l' && r' <= r < |a|
    ensures Shuffled(a, c, l, r)
  {
  }

  lemma Swapped<T>(a: seq<T>, b: seq<T>, l: int, r: int, i: int, j: int)
    requires 0 <= l <= i <= j <= r < |a| && b == a[i := a[j]][j := a[i]]
    ensures Shuffled(a, b, l, r)
  {
  }

  lemma SwappedWithin<T>(a: seq<T>, b: seq<T>, c: seq<T>, l: int, r: int, i: int, j: int)
    requires Shuffled(a, b, l, r) && l <= i <= j <= r && c == b[i := b[j]][j := b[i]]
    ensures Shuffled(a, c, l, r)
  {
    Swapped(b, c, l, r, i, j);
  }

  lemma KeepsNotAbove<T>(cmp: (T, T) -> bool, a: seq<T>, b: seq<T>, l: int, r: int, p: T)
    requires Shuffled(a, b, l, r) && NotAbove(cmp, a, l, r, p)
    ensures NotAbove(cmp, b, l, r, p)
  {
    forall x | l <= x <= r ensures !cmp(p, b[x]) {
      var y := Origin(a, b, l, r, x);
    }
  }

  lemma KeepsNotBelow<T>(cmp: (T, T) -> bool, a: seq<T>, b: seq<T>, l: int, r: int, p: T)
    requires Shuffled(a, b, l, r) && NotBelow(cmp, a, l, r, p)
    ensures NotBelow(cmp, b, l, r, p)
  {
    forall x | l <= x <= r ensures !cmp(b[x], p) {
      var y := Origin(a, b, l, r, x);
    }
  }

  /** t is s with the element at `last` moved down to h. */
  ghost predicate Moved<T>(s: seq<T>, t: seq<T>, h: int, last: int) {
    && 0 <= h <= last < |s| == |t|
    && forall y {:trigger t[y]} :: 0 <= y < |t| ==>
         t[y] == if y == h then s[last] else if h < y <= last then s[y - 1] else s[y]
  }

  lemma MovedIs<T>(s: seq<T>, t: seq<T>, h: int, last: int)
    requires Moved(s, t, h, last)
    ensures t == s[..h] + [s[last]] + s[h..last] + s[last + 1..]
  {
    var u := s[..h] + [s[last]] + s[h..last] + s[last + 1..];
    forall y {:trigger t[y]} | 0 <= y < |t| ensures t[y] == u[y] {
      if y < h {} else if y == h {} else if y <= last {} else {}
    }
  }

  lemma MovedDown<T>(s: seq<T>, t: seq<T>, l: int, h: int, last: int)
    requires Moved(s, t, h, last) && 0 <= l <= h
    ensures Shuffled(s, t, l, last)
  {
    MovedIs(s, t, h, last);
    assert s == s[..h] + s[h..last] + [s[last]] + s[last + 1..];
  }

  /** A whole array that is sorted and shuffled is a sorted permutation. */
  lemma WholeWindow<T>(cmp: (T, T) -> bool, a: seq<T>, b: seq<T>)
    requires Shuffled(a, b, 0, |a| - 1) && SortedWindow(cmp, b, 0, |b| - 1)
    ensures SortedPermutation(cmp, a, b)
  {
  }

  /** The exchange that every partition is made of. */
  method Swap<T>(items: array<T>, i: int, j: int)
    requires 0 <= i <= j < items.Length
    modifies items
    ensures items[..] == old(items[..])[i := old(items[j])][j := old(items[i])]
  {
    items[i], items[j] := items[j], items[i];
  }
}
