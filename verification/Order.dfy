/**
 Comparators, sortedness, stability and permutations, as the sorting routines need them.

 A comparator is the source's `cmp`: cmp(a, b) says that a must come before b.
 */
module Order {

  ghost predicate Asymmetric<T(!new)>(cmp: (T, T) -> bool) {
    forall x, y :: cmp(x, y) ==> !cmp(y, x)
  }

  /** cmp is a strict weak order: asymmetric, and "not before" is transitive. */
  ghost predicate StrictWeak<T(!new)>(cmp: (T, T) -> bool) {
    && Asymmetric(cmp)
    && (forall x, y, z :: cmp(x, z) ==> cmp(x, y) || cmp(y, z))
  }

  /** Every element may stand before every later one. */
  ghost predicate Sorted<T>(cmp: (T, T) -> bool, s: seq<T>) {
    forall i, j :: 0 <= i < j < |s| ==> !cmp(s[j], s[i])
  }

  /** The elements of s that satisfy p, in the order in which they occur. */
  function Filter<T>(p: T -> bool, s: seq<T>): seq<T> {
    if s == [] then [] else (if p(s[0]) then [s[0]] else []) + Filter(p, s[1..])
  }

  /** The elements that cmp cannot tell from v. */
  function Tied<T>(cmp: (T, T) -> bool, v: T): T -> bool {
    x => !cmp(v, x) && !cmp(x, v)
  }

  /** ys is xs sorted, with tied elements left in their original order. */
  ghost predicate StablySorted<T(!new)>(cmp: (T, T) -> bool, xs: seq<T>, ys: seq<T>) {
    && Sorted(cmp, ys)
    && forall v :: Filter(Tied(cmp, v), ys) == Filter(Tied(cmp, v), xs)
  }

  ghost predicate SortedPermutation<T>(cmp: (T, T) -> bool, xs: seq<T>, ys: seq<T>) {
    Sorted(cmp, ys) && multiset(ys) == multiset(xs)
  }

  lemma {:induction false} FilterAppend<T>(p: T -> bool, a: seq<T>, b: seq<T>)
    ensures Filter(p, a + b) == Filter(p, a) + Filter(p, b)
  {
    if a == [] {
      assert a + b == b;
    } else {
      assert (a + b)[1..] == a[1..] + b && (a + b)[0] == a[0];
      FilterAppend(p, a[1..], b);
      var h := if p(a[0]) then [a[0]] else [];
      assert h + (Filter(p, a[1..]) + Filter(p, b)) == (h + Filter(p, a[1..])) + Filter(p, b);
    }
  }

  lemma FilterCons<T>(p: T -> bool, x: T, s: seq<T>)
    ensures Filter(p, [x] + s) == (if p(x) then [x] else []) + Filter(p, s)
  {
    assert ([x] + s)[1..] == s;
  }

  lemma {:induction false} FilterNone<T>(p: T -> bool, s: seq<T>)
    requires forall i :: 0 <= i < |s| ==> !p(s[i])
    ensures Filter(p, s) == []
  {
    if s != [] { FilterNone(p, s[1..]); }
  }

  lemma {:induction false} FilterCount<T>(p: T -> bool, s: seq<T>, v: T)
    requires p(v)
    ensures multiset(Filter(p, s))[v] == multiset(s)[v]
  {
    if s != [] {
      FilterCount(p, s[1..], v);
      assert s == [s[0]] + s[1..];
    }
  }

  /** Keeping every class of tied elements keeps the elements. */
  lemma StableIsPermutation<T(!new)>(cmp: (T, T) -> bool, xs: seq<T>, ys: seq<T>)
    requires StrictWeak(cmp) && StablySorted(cmp, xs, ys)
    ensures SortedPermutation(cmp, xs, ys)
  {
    forall v ensures multiset(ys)[v] == multiset(xs)[v] {
      assert Tied(cmp, v)(v);
      FilterCount(Tied(cmp, v), xs, v);
      FilterCount(Tied(cmp, v), ys, v);
    }
  }

  /** A window into the second part of a concatenation. */
  lemma SecondPart<T>(a: seq<T>, b: seq<T>, lo: nat, hi: nat)
    requires lo <= hi <= |b|
    ensures (a + b)[|a| + lo..|a| + hi] == b[lo..hi]
  {
  }

  /** A window into a suffix. */
  lemma OfSuffix<T>(s: seq<T>, d: nat, lo: nat, hi: nat)
    requires d <= |s| && lo <= hi <= |s| - d
    ensures s[d..][lo..hi] == s[d + lo..d + hi]
  {
  }

  /** q names every position below n exactly once. */
  ghost predicate IsBijection(q: seq<nat>, n: nat) {
    && |q| == n
    && (forall i :: 0 <= i < n ==> q[i] < n)
    && (forall i, j :: 0 <= i < j < n ==> q[i] != q[j])
  }

  /** Rearranging a sequence by a bijection of its positions keeps the elements. */
  lemma {:induction false} RearrangedMultiset<T>(s: seq<T>, t: seq<T>, q: seq<nat>)
    requires IsBijection(q, |s|) && |t| == |s|
    requires forall i :: 0 <= i < |t| ==> t[i] == s[q[i]]
    ensures multiset(t) == multiset(s)
  {
    if s != [] {
      var n, h := |s| - 1, q[|s| - 1];
      var s', q' := s[..h] + s[h + 1..], Removed(q);
      RemovedBijection(q);
      forall i | 0 <= i < n ensures t[..n][i] == s'[q'[i]] { assert q[i] != q[n]; }
      RearrangedMultiset(s', t[..n], q');
      assert t == t[..n] + [t[n]];
      assert s == s[..h] + [s[h]] + s[h + 1..];
    }
  }

  /** The bijection without its last position, once that has been taken out of the others. */
  function Removed(q: seq<nat>): seq<nat>
    requires q != []
  {
    var n := |q| - 1;
    seq(n, i requires 0 <= i < n => if q[i] > q[n] then q[i] - 1 else q[i])
  }

  lemma RemovedBijection(q: seq<nat>)
    requires q != [] && IsBijection(q, |q|)
    ensures IsBijection(Removed(q), |q| - 1)
  {
    var n := |q| - 1;
    forall i | 0 <= i < n ensures q[i] != q[n] && Removed(q)[i] < n { assert q[i] != q[n]; }
  }
}
