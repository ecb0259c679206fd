/**
 Sorting networks as sequences of layers, and the zero-one principle.

 A layer says of every position whether it keeps the smaller or the larger element of a pair, or
 is left alone.  The threaded network sorts carry out one layer in each round.
 */
module Networks {
  import opened Order
  import opened Positions

  datatype Wire = Idle | KeepMin(partner: nat) | KeepMax(partner: nat)

  type Layer = nat -> Wire

  /** A network gives the layer of step j in stage k. */
  type Network = (nat, nat) -> Layer

  function Keep<T>(cmp: (T, T) -> bool, w: Wire, s: seq<T>, i: nat): T
    requires i < |s|
  {
    match w
    case Idle => s[i]
    case KeepMin(q) => if q < |s| && cmp(s[q], s[i]) then s[q] else s[i]
    case KeepMax(q) => if q < |s| && cmp(s[i], s[q]) then s[q] else s[i]
  }

  function Apply<T>(cmp: (T, T) -> bool, layer: Layer, s: seq<T>): seq<T> {
    seq(|s|, i requires 0 <= i < |s| => Keep(cmp, layer(i), s, i))
  }

  /** Steps j, j/2, ..., 1 of stage k. */
  function Stage<T>(cmp: (T, T) -> bool, net: Network, k: nat, j: nat, s: seq<T>): (r: seq<T>)
    ensures |r| == |s|
  {
    if j == 0 then s else Stage(cmp, net, k, j / 2, Apply(cmp, net(k, j), s))
  }

  /** All the stages 1, 2, 4, ... below k. */
  function Staged<T>(cmp: (T, T) -> bool, net: Network, k: nat, s: seq<T>): (r: seq<T>)
    ensures |r| == |s|
  {
    if k <= 1 then s else Stage(cmp, net, k / 2, k / 2, Staged(cmp, net, k / 2, s))
  }

  // ----- layers permute -----

  /** The partner of position i names i, and one keeps the minimum and the other the maximum. */
  ghost predicate PairedAt(layer: Layer, i: nat, n: nat) {
    match layer(i)
    case Idle => true
    case KeepMin(q) => q < n && layer(q) == KeepMax(i)
    case KeepMax(q) => q < n && layer(q) == KeepMin(i)
  }

  ghost predicate Paired(layer: Layer, n: nat) {
    forall i :: 0 <= i < n ==> PairedAt(layer, i, n)
  }

  lemma ApplyPermutes<T>(cmp: (T, T) -> bool, layer: Layer, s: seq<T>)
    requires Paired(layer, |s|)
    ensures multiset(Apply(cmp, layer, s)) == multiset(s)
  {
    var moved := i requires 0 <= i < |s| =>
      match layer(i)
      case Idle => i
      case KeepMin(p) => if p < |s| && cmp(s[p], s[i]) then p else i
      case KeepMax(p) => if p < |s| && cmp(s[i], s[p]) then p else i;
    var q: seq<nat> := seq(|s|, moved);
    forall i, j | 0 <= i < j < |s| ensures q[i] != q[j] {
      assert PairedAt(layer, i, |s|) && PairedAt(layer, j, |s|);
    }
    forall i | 0 <= i < |s| ensures Apply(cmp, layer, s)[i] == s[q[i]] {
      assert PairedAt(layer, i, |s|);
    }
    RearrangedMultiset(s, Apply(cmp, layer, s), q);
  }

  /** A layer on zero-one values takes conjunctions and disjunctions. */
  lemma Apply01(layer: Layer, s: seq<bool>, i: nat)
    requires i < |s|
    ensures match layer(i)
            case Idle => Apply(Less01, layer, s)[i] == s[i]
            case KeepMin(q) => q < |s| ==> Apply(Less01, layer, s)[i] == (s[i] && s[q])
            case KeepMax(q) => q < |s| ==> Apply(Less01, layer, s)[i] == (s[i] || s[q])
  {
    assert Apply(Less01, layer, s)[i] == Keep(Less01, layer(i), s, i);
    match layer(i)
    case Idle =>
    case KeepMin(q) => if q < |s| { assert Less01(s[q], s[i]) == (!s[q] && s[i]); }
    case KeepMax(q) => if q < |s| { assert Less01(s[i], s[q]) == (!s[i] && s[q]); }
  }

  lemma {:induction false} StagePermutes<T>(cmp: (T, T) -> bool, net: Network, k: nat, j: nat, s: seq<T>)
    requires forall i :: 0 < i <= j ==> Paired(net(k, i), |s|) || !PowerOfTwo(i)
    requires j == 0 || PowerOfTwo(j)
    ensures multiset(Stage(cmp, net, k, j, s)) == multiset(s)
  {
    if j > 0 {
      ApplyPermutes(cmp, net(k, j), s);
      StagePermutes(cmp, net, k, j / 2, Apply(cmp, net(k, j), s));
    }
  }

  /** Every layer that the stages below n use pairs its positions up. */
  ghost predicate WellWired(net: Network, n: nat) {
    forall k, j :: 0 < j <= k < n && PowerOfTwo(k) && PowerOfTwo(j) ==> Paired(net(k, j), n)
  }

  lemma {:induction false} StagedPermutes<T>(cmp: (T, T) -> bool, net: Network, k: nat, s: seq<T>)
    requires WellWired(net, |s|) && PowerOfTwo(k) && k <= |s|
    ensures multiset(Staged(cmp, net, k, s)) == multiset(s)
  {
    if k > 1 {
      StagedPermutes(cmp, net, k / 2, s);
      StagePermutes(cmp, net, k / 2, k / 2, Staged(cmp, net, k / 2, s));
    }
  }

  // ----- the zero-one principle -----

  predicate Less01(a: bool, b: bool) { !a && b }

  /** Which elements are not before the threshold t. */
  function Marks<T>(cmp: (T, T) -> bool, t: T, s: seq<T>): (r: seq<bool>)
    ensures |r| == |s|
  {
    seq(|s|, i requires 0 <= i < |s| => !cmp(s[i], t))
  }

  /** A layer does not care whether the elements are marked before or after it. */
  lemma ApplyMarks<T(!new)>(cmp: (T, T) -> bool, t: T, layer: Layer, s: seq<T>)
    requires StrictWeak(cmp)
    ensures Marks(cmp, t, Apply(cmp, layer, s)) == Apply(Less01, layer, Marks(cmp, t, s))
  {
    var m := Marks(cmp, t, s);
    forall i | 0 <= i < |s|
      ensures Marks(cmp, t, Apply(cmp, layer, s))[i] == Apply(Less01, layer, m)[i]
    {
      match layer(i)
      case Idle =>
      case KeepMin(q) =>
        if q < |s| { assert cmp(s[q], s[i]) || !cmp(s[q], s[i]); assert m[q] == !cmp(s[q], t); }
      case KeepMax(q) =>
        if q < |s| { assert cmp(s[i], s[q]) || !cmp(s[i], s[q]); assert m[q] == !cmp(s[q], t); }
    }
  }

  lemma {:induction false} StageMarks<T(!new)>(cmp: (T, T) -> bool, t: T, net: Network, k: nat, j: nat, s: seq<T>)
    requires StrictWeak(cmp)
    ensures Marks(cmp, t, Stage(cmp, net, k, j, s)) == Stage(Less01, net, k, j, Marks(cmp, t, s))
  {
    if j > 0 {
      ApplyMarks(cmp, t, net(k, j), s);
      StageMarks(cmp, t, net, k, j / 2, Apply(cmp, net(k, j), s));
    }
  }

  lemma {:induction false} StagedMarks<T(!new)>(cmp: (T, T) -> bool, t: T, net: Network, k: nat, s: seq<T>)
    requires StrictWeak(cmp)
    ensures Marks(cmp, t, Staged(cmp, net, k, s)) == Staged(Less01, net, k, Marks(cmp, t, s))
  {
    if k > 1 {
      StagedMarks(cmp, t, net, k / 2, s);
      StageMarks(cmp, t, net, k / 2, k / 2, Staged(cmp, net, k / 2, s));
    }
  }

  /** The window [lo, hi) of s is ascending if up, else descending. */
  ghost predicate WindowSorted<T>(cmp: (T, T) -> bool, s: seq<T>, lo: nat, hi: nat, up: bool)
    requires hi <= |s|
  {
    forall i, j :: lo <= i < j < hi ==> if up then !cmp(s[j], s[i]) else !cmp(s[i], s[j])
  }

  /** A window is sorted as soon as its marks are, for every threshold. */
  lemma WindowByMarks<T(!new)>(cmp: (T, T) -> bool, s: seq<T>, lo: nat, hi: nat, up: bool)
    requires StrictWeak(cmp) && hi <= |s|
    requires forall t :: WindowSorted(Less01, Marks(cmp, t, s), lo, hi, up)
    ensures WindowSorted(cmp, s, lo, hi, up)
  {
    forall i, j | lo <= i < j < hi ensures if up then !cmp(s[j], s[i]) else !cmp(s[i], s[j]) {
      var t := if up then s[i] else s[j];
      assert WindowSorted(Less01, Marks(cmp, t, s), lo, hi, up);
      assert Marks(cmp, t, s)[i] == !cmp(s[i], t) && Marks(cmp, t, s)[j] == !cmp(s[j], t);
    }
  }

  /**
   The zero-one principle: a network whose first stages sort a window of every zero-one input sort
   that window of every input, under any strict weak order.
   */
  lemma ZeroOnePrinciple<T(!new)>(cmp: (T, T) -> bool, net: Network, k: nat, s: seq<T>, lo: nat, hi: nat, up: bool)
    requires StrictWeak(cmp) && hi <= |s|
    requires forall b: seq<bool> :: |b| == |s| ==> WindowSorted(Less01, Staged(Less01, net, k, b), lo, hi, up)
    ensures WindowSorted(cmp, Staged(cmp, net, k, s), lo, hi, up)
  {
    forall t ensures WindowSorted(Less01, Marks(cmp, t, Staged(cmp, net, k, s)), lo, hi, up) {
      StagedMarks(cmp, t, net, k, s);
      assert |Marks(cmp, t, s)| == |s|;
    }
    WindowByMarks(cmp, Staged(cmp, net, k, s), lo, hi, up);
  }

  /** A sorted zero-one window is a run of one value followed by a run of the other. */
  lemma {:induction false} Threshold(s: seq<bool>, lo: nat, hi: nat, up: bool) returns (a: nat)
    requires lo <= hi <= |s| && WindowSorted(Less01, s, lo, hi, up)
    ensures lo <= a <= hi
    ensures forall i :: lo <= i < hi ==> s[i] == (if up then i >= a else i < a)
  {
    if lo == hi {
      a := lo;
    } else {
      a := Threshold(s, lo, hi - 1, up);
      if s[hi - 1] != up { a := hi; }
    }
  }
}
