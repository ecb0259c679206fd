/**
 One pass of the radix sort: a counting sort by a digit, with the places of the elements worked out
 from the number of elements before them.
 */
module Counting {
  import opened Order

  /** How many of the first x elements satisfy p. */
  function CountBefore<T>(p: T -> bool, s: seq<T>, x: nat): (n: nat)
    requires x <= |s|
    ensures n <= x
  {
    if x == 0 then 0 else CountBefore(p, s, x - 1) + if p(s[x - 1]) then 1 else 0
  }

  function HasDigit<T>(digit: T -> nat, d: nat): T -> bool {
    x => digit(x) == d
  }

  /** How many elements have a digit less than d. */
  function StartOf<T>(digit: T -> nat, s: seq<T>, d: nat): nat {
    if d == 0 then 0 else StartOf(digit, s, d - 1) + CountBefore(HasDigit(digit, d - 1), s, |s|)
  }

  /** Where the element at x goes: after those with a smaller digit and the earlier ones with the same digit. */
  function Place<T>(digit: T -> nat, s: seq<T>, x: nat): nat
    requires x < |s|
  {
    StartOf(digit, s, digit(s[x])) + CountBefore(HasDigit(digit, digit(s[x])), s, x)
  }

  function ByDigit<T>(digit: T -> nat): (T, T) -> bool {
    (x, y) => digit(x) < digit(y)
  }

  lemma {:induction false} CountGrows<T>(p: T -> bool, s: seq<T>, x: nat, y: nat)
    requires x <= y <= |s|
    ensures CountBefore(p, s, x) <= CountBefore(p, s, y)
    ensures x < y && p(s[x]) ==> CountBefore(p, s, x) < CountBefore(p, s, y)
  {
    if x < y { CountGrows(p, s, x, y - 1); }
  }

  lemma {:induction false} StartsGrow<T>(digit: T -> nat, s: seq<T>, d: nat, e: nat)
    requires d <= e
    ensures StartOf(digit, s, d) <= StartOf(digit, s, e)
  {
    if d < e { StartsGrow(digit, s, d, e - 1); }
  }

  /** How many of the first x elements have a digit less than d. */
  function SmallBefore<T>(digit: T -> nat, s: seq<T>, d: nat, x: nat): nat
    requires x <= |s|
  {
    if d == 0 then 0 else SmallBefore(digit, s, d - 1, x) + CountBefore(HasDigit(digit, d - 1), s, x)
  }

  lemma {:induction false} SmallStep<T>(digit: T -> nat, s: seq<T>, d: nat, x: nat)
    requires x < |s|
    ensures SmallBefore(digit, s, d, x + 1) == SmallBefore(digit, s, d, x) + if digit(s[x]) < d then 1 else 0
  {
    if d > 0 { SmallStep(digit, s, d - 1, x); }
  }

  lemma {:induction false} SmallIsStart<T>(digit: T -> nat, s: seq<T>, d: nat)
    ensures SmallBefore(digit, s, d, |s|) == StartOf(digit, s, d)
  {
    if d > 0 { SmallIsStart(digit, s, d - 1); }
  }

  lemma {:induction false} NoneBefore<T>(digit: T -> nat, s: seq<T>, d: nat)
    ensures SmallBefore(digit, s, d, 0) == 0
  {
    if d > 0 { NoneBefore(digit, s, d - 1); }
  }

  lemma {:induction false} AllSmall<T>(digit: T -> nat, s: seq<T>, base: nat, x: nat)
    requires x <= |s| && forall y :: 0 <= y < |s| ==> digit(s[y]) < base
    ensures SmallBefore(digit, s, base, x) == x
  {
    if x > 0 {
      AllSmall(digit, s, base, x - 1);
      SmallStep(digit, s, base, x - 1);
    } else {
      NoneBefore(digit, s, base);
    }
  }

  /** The digits account for all elements. */
  lemma StartsEnd<T>(digit: T -> nat, s: seq<T>, base: nat)
    requires forall y :: 0 <= y < |s| ==> digit(s[y]) < base
    ensures StartOf(digit, s, base) == |s|
  {
    AllSmall(digit, s, base, |s|);
    SmallIsStart(digit, s, base);
  }

  lemma PlaceInBlock<T>(digit: T -> nat, s: seq<T>, base: nat, x: nat)
    requires x < |s| && forall y :: 0 <= y < |s| ==> digit(s[y]) < base
    ensures StartOf(digit, s, digit(s[x])) <= Place(digit, s, x) < StartOf(digit, s, digit(s[x]) + 1) <= |s|
  {
    CountGrows(HasDigit(digit, digit(s[x])), s, x, |s|);
    StartsGrow(digit, s, digit(s[x]) + 1, base);
    StartsEnd(digit, s, base);
  }

  /** No two elements go to the same place, and elements with the same digit keep their order. */
  lemma PlacesDiffer<T>(digit: T -> nat, s: seq<T>, base: nat, x: nat, y: nat)
    requires x < y < |s| && forall y :: 0 <= y < |s| ==> digit(s[y]) < base
    ensures Place(digit, s, x) != Place(digit, s, y)
    ensures digit(s[x]) == digit(s[y]) ==> Place(digit, s, x) < Place(digit, s, y)
  {
    PlaceInBlock(digit, s, base, x);
    PlaceInBlock(digit, s, base, y);
    CountGrows(HasDigit(digit, digit(s[x])), s, x, y);
    if digit(s[x]) < digit(s[y]) { StartsGrow(digit, s, digit(s[x]) + 1, digit(s[y])); }
    if digit(s[y]) < digit(s[x]) { StartsGrow(digit, s, digit(s[y]) + 1, digit(s[x])); }
  }

  /** The k-th element that satisfies p. */
  lemma {:induction false} Nth<T>(p: T -> bool, s: seq<T>, n: nat, k: nat) returns (x: nat)
    requires n <= |s| && k < CountBefore(p, s, n)
    ensures x < n && p(s[x]) && CountBefore(p, s, x) == k
  {
    if k < CountBefore(p, s, n - 1) { x := Nth(p, s, n - 1, k); } else { x := n - 1; }
  }

  /** The digit whose block a place lies in. */
  lemma {:induction false} BlockOfPlace<T>(digit: T -> nat, s: seq<T>, base: nat, y: nat) returns (d: nat)
    requires y < StartOf(digit, s, base)
    ensures d < base && StartOf(digit, s, d) <= y < StartOf(digit, s, d + 1)
  {
    if y < StartOf(digit, s, base - 1) { d := BlockOfPlace(digit, s, base - 1, y); } else { d := base - 1; }
  }

  /** t holds every element of s at its place. */
  ghost predicate Placed<T>(digit: T -> nat, s: seq<T>, t: seq<T>) {
    |t| == |s| && forall x: nat :: x < |s| ==> PlacedAt(digit, s, t, x)
  }

  ghost predicate PlacedAt<T>(digit: T -> nat, s: seq<T>, t: seq<T>, x: nat)
    requires x < |s| <= |t|
  {
    var y := Place(digit, s, x);
    y < |s| && t[y] == s[x]
  }

  /** Every place is taken. */
  lemma Source<T>(digit: T -> nat, s: seq<T>, t: seq<T>, base: nat, y: nat) returns (x: nat)
    requires Placed(digit, s, t) && y < |t| && forall y :: 0 <= y < |s| ==> digit(s[y]) < base
    ensures x < |s| && Place(digit, s, x) == y && t[y] == s[x]
    ensures StartOf(digit, s, digit(s[x])) <= y < StartOf(digit, s, digit(s[x]) + 1)
  {
    StartsEnd(digit, s, base);
    var d := BlockOfPlace(digit, s, base, y);
    x := Nth(HasDigit(digit, d), s, |s|, y - StartOf(digit, s, d));
    assert PlacedAt(digit, s, t, x);
  }

  lemma PlacedSorted<T>(digit: T -> nat, s: seq<T>, t: seq<T>, base: nat)
    requires Placed(digit, s, t) && forall y :: 0 <= y < |s| ==> digit(s[y]) < base
    ensures Sorted(ByDigit(digit), t)
  {
    forall i, j | 0 <= i < j < |t| ensures digit(t[j]) >= digit(t[i]) {
      var x := Source(digit, s, t, base, i);
      var y := Source(digit, s, t, base, j);
      if digit(s[y]) < digit(s[x]) { StartsGrow(digit, s, digit(s[y]) + 1, digit(s[x])); }
    }
  }

  lemma {:induction false} FilterLength<T>(p: T -> bool, s: seq<T>, x: nat)
    requires x <= |s|
    ensures |Filter(p, s[..x])| == CountBefore(p, s, x)
  {
    if x > 0 {
      FilterLength(p, s, x - 1);
      assert s[..x] == s[..x - 1] + [s[x - 1]];
      FilterAppend(p, s[..x - 1], [s[x - 1]]);
    }
  }

  /** The k-th element that satisfies p is the k-th of the filtered sequence. */
  lemma FilterAt<T>(p: T -> bool, s: seq<T>, x: nat)
    requires x < |s| && p(s[x])
    ensures |Filter(p, s)| == CountBefore(p, s, |s|) > CountBefore(p, s, x)
    ensures Filter(p, s)[CountBefore(p, s, x)] == s[x]
  {
    assert s == s[..x] + ([s[x]] + s[x + 1..]) && s[..|s|] == s;
    FilterLength(p, s, x);
    FilterLength(p, s, |s|);
    FilterAppend(p, s[..x], [s[x]] + s[x + 1..]);
    FilterCons(p, s[x], s[x + 1..]);
    CountGrows(p, s, x, |s|);
  }

  /** t's block for digit d, from the side of t. */
  lemma BlockFiltered<T>(digit: T -> nat, s: seq<T>, t: seq<T>, base: nat, d: nat)
    requires Placed(digit, s, t) && (forall y :: 0 <= y < |s| ==> digit(s[y]) < base) && d < base
    ensures StartOf(digit, s, d) <= StartOf(digit, s, d + 1) <= |t|
    ensures Filter(HasDigit(digit, d), t) == t[StartOf(digit, s, d)..StartOf(digit, s, d + 1)]
  {
    var a, b, p := StartOf(digit, s, d), StartOf(digit, s, d + 1), HasDigit(digit, d);
    StartsGrow(digit, s, d + 1, base);
    StartsEnd(digit, s, base);
    forall y | 0 <= y < |t| ensures p(t[y]) <==> a <= y < b {
      var x := Source(digit, s, t, base, y);
      if digit(s[x]) < d { StartsGrow(digit, s, digit(s[x]) + 1, d); }
      if d < digit(s[x]) { StartsGrow(digit, s, d + 1, digit(s[x])); }
    }
    assert t == t[..a] + t[a..b] + t[b..];
    FilterAppend(p, t[..a] + t[a..b], t[b..]);
    FilterAppend(p, t[..a], t[a..b]);
    FilterNone(p, t[..a]);
    FilterNone(p, t[b..]);
    FilterAll(p, t[a..b]);
  }

  lemma {:induction false} FilterAll<T>(p: T -> bool, s: seq<T>)
    requires forall i :: 0 <= i < |s| ==> p(s[i])
    ensures Filter(p, s) == s
  {
    if s != [] { FilterAll(p, s[1..]); }
  }

  /** A placed sequence has, digit by digit, the elements of s in their order. */
  lemma PlacedFilter<T>(digit: T -> nat, s: seq<T>, t: seq<T>, base: nat, d: nat)
    requires Placed(digit, s, t) && (forall y :: 0 <= y < |s| ==> digit(s[y]) < base) && d < base
    ensures Filter(HasDigit(digit, d), t) == Filter(HasDigit(digit, d), s)
  {
    var a, b, p := StartOf(digit, s, d), StartOf(digit, s, d + 1), HasDigit(digit, d);
    BlockFiltered(digit, s, t, base, d);
    FilterLength(p, s, |s|);
    assert s[..|s|] == s;
    forall k | 0 <= k < b - a ensures Filter(p, t)[k] == Filter(p, s)[k] {
      var x := Nth(p, s, |s|, k);
      FilterAt(p, s, x);
      assert PlacedAt(digit, s, t, x);
    }
  }

  lemma {:induction false} FilterSame<T>(p: T -> bool, q: T -> bool, s: seq<T>)
    requires forall i :: 0 <= i < |s| ==> p(s[i]) == q(s[i])
    ensures Filter(p, s) == Filter(q, s)
  {
    if s != [] { FilterSame(p, q, s[1..]); }
  }

  /** Placing the elements sorts them stably by their digit. */
  lemma PlacedStable<T(!new)>(digit: T -> nat, s: seq<T>, t: seq<T>, base: nat)
    requires Placed(digit, s, t) && forall x :: digit(x) < base
    ensures StablySorted(ByDigit(digit), s, t)
  {
    PlacedSorted(digit, s, t, base);
    forall v ensures Filter(Tied(ByDigit(digit), v), t) == Filter(Tied(ByDigit(digit), v), s) {
      FilterSame(Tied(ByDigit(digit), v), HasDigit(digit, digit(v)), s);
      FilterSame(Tied(ByDigit(digit), v), HasDigit(digit, digit(v)), t);
      PlacedFilter(digit, s, t, base, digit(v));
    }
  }
}
