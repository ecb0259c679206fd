/**
 The radix sort: four counting passes over the low four bytes of an unsigned key.
 */
module Radix {
  import opened Order
  import opened Counting

  /** 256^m, the weight of byte m. */
  function Weight(m: nat): (w: nat)
    ensures w > 0
  {
    if m == 0 then 1 else 256 * Weight(m - 1)
  }

  /** Byte m of a key: (key >> 8 * m) & 255. */
  function Byte(key: nat, m: nat): (b: nat)
    ensures b < 256
  {
    key / Weight(m) % 256
  }

  function ByteOf<T>(indexer: T -> nat, m: nat): T -> nat {
    x => Byte(indexer(x), m)
  }

  /** The order by the low m bytes of the key. */
  function ByLow<T>(indexer: T -> nat, m: nat): (T, T) -> bool {
    (x, y) => indexer(x) % Weight(m) < indexer(y) % Weight(m)
  }

  lemma TwoBytes(key: nat)
    ensures key % 0x1_0000 == 256 * (key / 256 % 256) + key % 256
  {
  }

  lemma ThreeBytes(key: nat)
    ensures key % 0x100_0000 == 0x1_0000 * (key / 0x1_0000 % 256) + key % 0x1_0000
  {
  }

  lemma FourBytes(key: nat)
    ensures key % 0x1_0000_0000 == 0x100_0000 * (key / 0x100_0000 % 256) + key % 0x100_0000
  {
  }

  /** The low m + 1 bytes are byte m followed by the low m bytes. */
  lemma LowNext(key: nat, m: nat)
    requires m < 4
    ensures key % Weight(m + 1) == Weight(m) * Byte(key, m) + key % Weight(m)
  {
    assert Weight(1) == 256 && Weight(2) == 0x1_0000 && Weight(3) == 0x100_0000 && Weight(4) == 0x1_0000_0000;
    if m == 1 { TwoBytes(key); }
    if m == 2 { ThreeBytes(key); }
    if m == 3 { FourBytes(key); }
  }

  /** Comparing by byte m and then by the low m bytes is comparing by the low m + 1 bytes. */
  lemma LowCompare(a: nat, b: nat, m: nat)
    requires m < 4
    ensures a % Weight(m + 1) < b % Weight(m + 1) <==>
            Byte(a, m) < Byte(b, m) || (!(Byte(b, m) < Byte(a, m)) && a % Weight(m) < b % Weight(m))
  {
    LowNext(a, m);
    LowNext(b, m);
    assert Weight(1) == 256 && Weight(2) == 0x1_0000 && Weight(3) == 0x100_0000;
  }

  // ----- stable sorts one after the other -----

  lemma {:induction false} FilterTwice<T(!new)>(p: T -> bool, q: T -> bool, r: T -> bool, s: seq<T>)
    requires forall x :: r(x) == (p(x) && q(x))
    ensures Filter(p, Filter(q, s)) == Filter(r, s)
  {
    if s != [] {
      FilterTwice(p, q, r, s[1..]);
      if q(s[0]) {
        FilterCons(p, s[0], Filter(q, s[1..]));
      } else {
        assert Filter(q, s) == Filter(q, s[1..]);
      }
    }
  }

  lemma FilterSorted<T>(cmp: (T, T) -> bool, p: T -> bool, s: seq<T>)
    requires Sorted(cmp, s)
    ensures Sorted(cmp, Filter(p, s))
  {
    var f := Filter(p, s);
    FilterLength(p, s, |s|);
    assert s[..|s|] == s;
    forall i, j | 0 <= i < j < |f| ensures !cmp(f[j], f[i]) {
      var x := Nth(p, s, |s|, i);
      var y := Nth(p, s, |s|, j);
      FilterAt(p, s, x);
      FilterAt(p, s, y);
      if y <= x { CountGrows(p, s, y, x); }
    }
  }

  /** both compares by hi first and, where hi cannot decide, by lo. */
  ghost predicate Lexicographic<T(!new)>(hi: (T, T) -> bool, lo: (T, T) -> bool, both: (T, T) -> bool) {
    forall x, y :: both(x, y) <==> hi(x, y) || (!hi(y, x) && lo(x, y))
  }

  /** Sorting stably by lo and then by hi sorts stably by both. */
  lemma SortTwice<T(!new)>(hi: (T, T) -> bool, lo: (T, T) -> bool, both: (T, T) -> bool, xs: seq<T>, ys: seq<T>,
      zs: seq<T>)
    requires Asymmetric(hi) && Lexicographic(hi, lo, both)
    requires StablySorted(lo, xs, ys) && StablySorted(hi, ys, zs)
    ensures StablySorted(both, xs, zs)
  {
    forall i, j | 0 <= i < j < |zs| ensures !both(zs[j], zs[i]) {
      if both(zs[j], zs[i]) {
        var p := Tied(hi, zs[i]);
        FilterAt(p, zs, i);
        FilterAt(p, zs, j);
        CountGrows(p, zs, i, j);
        FilterSorted(lo, p, ys);
      }
    }
    forall v ensures Filter(Tied(both, v), zs) == Filter(Tied(both, v), xs) {
      FilterTwice(Tied(lo, v), Tied(hi, v), Tied(both, v), zs);
      FilterTwice(Tied(lo, v), Tied(hi, v), Tied(both, v), ys);
      FilterTwice(Tied(hi, v), Tied(lo, v), Tied(both, v), ys);
      FilterTwice(Tied(hi, v), Tied(lo, v), Tied(both, v), xs);
    }
  }

  /** One more pass: from the order by the low m bytes to the order by the low m + 1. */
  lemma NextByte<T(!new)>(indexer: T -> nat, m: nat, xs: seq<T>, ys: seq<T>, zs: seq<T>)
    requires m < 4 && StablySorted(ByLow(indexer, m), xs, ys) && Placed(ByteOf(indexer, m), ys, zs)
    ensures StablySorted(ByLow(indexer, m + 1), xs, zs)
  {
    var digit := ByteOf(indexer, m);
    PlacedStable(digit, ys, zs, 256);
    forall x, y ensures ByLow(indexer, m + 1)(x, y) <==>
        ByDigit(digit)(x, y) || (!ByDigit(digit)(y, x) && ByLow(indexer, m)(x, y)) {
      LowCompare(indexer(x), indexer(y), m);
    }
    SortTwice(ByDigit(digit), ByLow(indexer, m), ByLow(indexer, m + 1), xs, ys, zs);
  }

  // ----- the method -----

  /** radices[d] is the number of elements with digit d among the first x. */
  ghost predicate Counted<T>(digit: T -> nat, s: seq<T>, radices: seq<nat>, x: nat) {
    |radices| == 256 && x <= |s|
    && forall d {:trigger radices[d]} :: 0 <= d < 256 ==> radices[d] == CountBefore(HasDigit(digit, d), s, x)
  }

  /** radices[d] is the place after the first x elements with digit d. */
  ghost predicate Ends<T>(digit: T -> nat, s: seq<T>, radices: seq<nat>, x: nat) {
    |radices| == 256 && x <= |s|
    && forall d {:trigger radices[d]} :: 0 <= d < 256 ==>
         radices[d] == StartOf(digit, s, d) + CountBefore(HasDigit(digit, d), s, x)
  }

  lemma CountOne<T>(digit: T -> nat, s: seq<T>, radices: seq<nat>, x: nat)
    requires x < |s| && digit(s[x]) < 256 && Counted(digit, s, radices, x)
    ensures Counted(digit, s, radices[digit(s[x]) := radices[digit(s[x])] + 1], x + 1)
  {
  }

  /** radices[d] becomes the number of elements with digit d. */
  method CountDigits<T(!new)>(items: array<T>, digit: T -> nat, radices: array<nat>)
    requires (radices as object) != (items as object) && (forall x :: digit(x) < 256)
    requires Counted(digit, items[..], radices[..], 0)
    modifies radices
    ensures Counted(digit, items[..], radices[..], items.Length)
  {
    ghost var s := items[..];
    var i := 0;
    while i < items.Length
      invariant 0 <= i <= items.Length && s == items[..] && Counted(digit, s, radices[..], i)
    {
      CountOne(digit, s, radices[..], i);
      var radix := digit(items[i]);
      radices[radix] := radices[radix] + 1;
      i := i + 1;
    }
  }

  /** The running sums: radices[d] becomes the end of the block for digit d. */
  method AddUp<T>(radices: array<nat>, ghost digit: T -> nat, ghost s: seq<T>)
    requires Counted(digit, s, radices[..], |s|)
    modifies radices
    ensures Ends(digit, s, radices[..], |s|)
  {
    ghost var was := radices[..];
    var i := 1;
    while i < 256
      invariant 1 <= i <= 256 && radices.Length == 256
      invariant forall d {:trigger radices[d]} :: 0 <= d < i ==> radices[d] == StartOf(digit, s, d + 1)
      invariant forall d {:trigger radices[d]} :: i <= d < 256 ==> radices[d] == was[d]
    {
      radices[i] := radices[i] + radices[i - 1];
      i := i + 1;
    }
  }

  ghost predicate PlacedFrom<T>(digit: T -> nat, s: seq<T>, t: seq<T>, i: int) {
    |s| <= |t| && forall x: nat :: i <= x < |s| ==> PlacedAt(digit, s, t, x)
  }

  /** One more element is placed, and there was room for it. */
  lemma PlaceOne<T(!new)>(digit: T -> nat, s: seq<T>, t: seq<T>, radices: seq<nat>, i: nat)
    requires i < |s| && (forall x :: digit(x) < 256) && PlacedFrom(digit, s, t, i + 1) && Ends(digit, s, radices, i + 1)
    ensures 0 <= radices[digit(s[i])] - 1 < |s|
    ensures PlacedFrom(digit, s, t[radices[digit(s[i])] - 1 := s[i]], i)
    ensures Ends(digit, s, radices[digit(s[i]) := radices[digit(s[i])] - 1], i)
  {
    var y := radices[digit(s[i])] - 1;
    assert y == Place(digit, s, i);
    PlaceInBlock(digit, s, 256, i);
    var t' := t[y := s[i]];
    forall x: nat | i <= x < |s| ensures PlacedAt(digit, s, t', x) {
      if x > i {
        PlacesDiffer(digit, s, 256, i, x);
        assert PlacedAt(digit, s, t, x);
      }
    }
  }

  /** The elements, last first, go to their places. */
  method PlaceAll<T(!new)>(items: array<T>, indices: array<T>, digit: T -> nat, radices: array<nat>)
    requires (radices as object) != (items as object) && (radices as object) != (indices as object)
    requires items != indices && indices.Length >= items.Length && (forall x :: digit(x) < 256)
    requires Ends(digit, items[..], radices[..], items.Length)
    modifies radices, indices
    ensures PlacedFrom(digit, items[..], indices[..], 0)
  {
    ghost var s := items[..];
    var i: int := items.Length - 1;
    while i >= 0
      invariant -1 <= i < items.Length && s == items[..]
      invariant Ends(digit, s, radices[..], i + 1) && PlacedFrom(digit, s, indices[..], i + 1)
    {
      PlaceOne(digit, s, indices[..], radices[..], i);
      var inIndex := digit(items[i]);
      radices[inIndex] := radices[inIndex] - 1;
      var outIndex := radices[inIndex];
      indices[outIndex] := items[i];
      i := i - 1;
    }
  }

  /** One turn of the loop over the bytes. */
  method CountingPass<T(!new)>(items: array<T>, indices: array<T>, digit: T -> nat)
    requires items != indices && indices.Length >= items.Length && forall x :: digit(x) < 256
    modifies items, indices
    ensures Placed(digit, old(items[..]), items[..])
  {
    ghost var s := items[..];
    var radices := new nat[256](_ => 0);
    CountDigits(items, digit, radices);
    AddUp(radices, digit, s);
    PlaceAll(items, indices, digit, radices);
    ghost var t := indices[..];
    var i := 0;
    while i < items.Length
      modifies items
      invariant 0 <= i <= items.Length
      invariant forall y {:trigger items[y]} :: 0 <= y < i ==> items[y] == t[y]
    {
      items[i] := indices[i];
      i := i + 1;
    }
    AllPlaced(digit, s, t, items[..]);
  }

  lemma AllPlaced<T>(digit: T -> nat, s: seq<T>, t: seq<T>, u: seq<T>)
    requires PlacedFrom(digit, s, t, 0) && |u| == |s|
    requires forall y {:trigger u[y]} :: 0 <= y < |u| ==> u[y] == t[y]
    ensures Placed(digit, s, u)
  {
    forall x: nat | x < |s| ensures PlacedAt(digit, s, u, x) {
      assert PlacedAt(digit, s, t, x);
    }
  }

  /** sort_radix with a buffer: a stable sort by the key modulo 2^32. */
  method SortRadix<T(!new)>(items: array<T>, indices: array<T>, indexer: T -> nat)
    requires items != indices && indices.Length >= items.Length
    modifies items, indices
    ensures StablySorted(ByLow(indexer, 4), old(items[..]), items[..])
  {
    if items.Length <= 1 {
      return;
    }
    ghost var was := items[..];
    var m := 0;
    while m < 4
      invariant 0 <= m <= 4 && StablySorted(ByLow(indexer, m), was, items[..])
    {
      ghost var before := items[..];
      CountingPass(items, indices, ByteOf(indexer, m));
      NextByte(indexer, m, was, before, items[..]);
      m := m + 1;
    }
  }

  // ----- the adapter for comparators -----

  /** RadixIndexerAscending of an unsigned value, and RadixIndexerDescending, its 64-bit complement. */
  function AscendingIndex(v: nat): nat {
    v
  }

  function DescendingIndex(v: nat): nat
    requires v < 0x1_0000_0000_0000_0000
  {
    0xFFFF_FFFF_FFFF_FFFF - v
  }

  newtype Unsigned64 = x: int | 0 <= x < 0x1_0000_0000_0000_0000

  function Up(v: Unsigned64): nat {
    AscendingIndex(v as nat)
  }

  function Down(v: Unsigned64): nat {
    DescendingIndex(v as nat)
  }

  /**
   sort_radix_comparative for unsigned values: the comparator is only asked about 0 and 1, and decides
   the direction.
   */
  method SortRadixComparative(items: array<Unsigned64>, indices: array<Unsigned64>,
      cmp: (Unsigned64, Unsigned64) -> bool)
    requires items != indices && indices.Length >= items.Length
    modifies items, indices
    ensures cmp(0, 1) ==> StablySorted(ByLow(Up, 4), old(items[..]), items[..])
    ensures !cmp(0, 1) && cmp(1, 0) ==> StablySorted(ByLow(Down, 4), old(items[..]), items[..])
    ensures !cmp(0, 1) && !cmp(1, 0) ==> items[..] == old(items[..])
  {
    if cmp(0, 1) {
      SortRadix(items, indices, Up);
    } else if cmp(1, 0) {
      SortRadix(items, indices, Down);
    }
  }

  function Less(): (Unsigned64, Unsigned64) -> bool {
    (x, y) => x < y
  }

  function Greater(): (Unsigned64, Unsigned64) -> bool {
    (x, y) => x > y
  }

  /** Every array of values below `limit` is sorted by the adapter in ascending order. */
  ghost predicate AscendsBelow(limit: nat) {
    forall xs, ys :: AllBelow(limit, xs) && StablySorted(ByLow(Up, 4), xs, ys) ==> SortedPermutation(Less(), xs, ys)
  }

  ghost predicate DescendsBelow(limit: nat) {
    forall xs, ys ::
      AllBelow(limit, xs) && StablySorted(ByLow(Down, 4), xs, ys) ==> SortedPermutation(Greater(), xs, ys)
  }

  ghost predicate AllBelow(limit: nat, xs: seq<Unsigned64>) {
    forall i :: 0 <= i < |xs| ==> xs[i] as nat < limit
  }

  /** The adapter sorts the values of a type, in either direction, exactly if they fit in 32 bits. */
  lemma RightUpTo32Bits(limit: nat)
    requires limit <= 0x1_0000_0000_0000_0000
    ensures AscendsBelow(limit) <==> limit <= 0x1_0000_0000
    ensures DescendsBelow(limit) <==> limit <= 0x1_0000_0000
  {
    if limit <= 0x1_0000_0000 {
      NarrowAscends(limit);
      NarrowDescends(limit);
    } else {
      WideAscends(limit);
      WideDescends(limit);
    }
  }

  lemma NarrowAscends(limit: nat)
    requires limit <= 0x1_0000_0000
    ensures AscendsBelow(limit)
  {
    forall xs, ys | AllBelow(limit, xs) && StablySorted(ByLow(Up, 4), xs, ys)
      ensures SortedPermutation(Less(), xs, ys)
    {
      forall x: Unsigned64, y: Unsigned64 | x as nat < limit && y as nat < limit
        ensures Less()(x, y) <==> ByLow(Up, 4)(x, y)
      {
        Narrow(x);
        Narrow(y);
      }
      SortsNarrow(limit, Up, Less(), xs, ys);
    }
  }

  lemma NarrowDescends(limit: nat)
    requires limit <= 0x1_0000_0000
    ensures DescendsBelow(limit)
  {
    forall xs, ys | AllBelow(limit, xs) && StablySorted(ByLow(Down, 4), xs, ys)
      ensures SortedPermutation(Greater(), xs, ys)
    {
      forall x: Unsigned64, y: Unsigned64 | x as nat < limit && y as nat < limit
        ensures Greater()(x, y) <==> ByLow(Down, 4)(x, y)
      {
        Narrow(x);
        Narrow(y);
      }
      SortsNarrow(limit, Down, Greater(), xs, ys);
    }
  }

  /** An array of 2^32 and 1 is left as it is in the ascending direction. */
  lemma WideAscends(limit: nat)
    requires 0x1_0000_0000 < limit
    ensures !AscendsBelow(limit)
  {
    var xs: seq<Unsigned64> := [0x1_0000_0000, 1];
    WideIsLow();
    assert Sorted(ByLow(Up, 4), xs);
    assert AllBelow(limit, xs) && StablySorted(ByLow(Up, 4), xs, xs);
    assert Less()(xs[1], xs[0]) && !SortedPermutation(Less(), xs, xs);
  }

  /** An array of 0 and 2^32, whose keys tie, is left as it is in the descending direction. */
  lemma WideDescends(limit: nat)
    requires 0x1_0000_0000 < limit
    ensures !DescendsBelow(limit)
  {
    var xs: seq<Unsigned64> := [0, 0x1_0000_0000];
    WideIsLow();
    assert Sorted(ByLow(Down, 4), xs);
    assert AllBelow(limit, xs) && StablySorted(ByLow(Down, 4), xs, xs);
    assert Greater()(xs[1], xs[0]) && !SortedPermutation(Greater(), xs, xs);
  }

  /** The key 2^32 looks like 0. */
  lemma WideIsLow()
    ensures !ByLow(Up, 4)(1, 0x1_0000_0000) && !ByLow(Down, 4)(0x1_0000_0000, 0)
  {
    assert Weight(1) == 256 && Weight(2) == 0x1_0000 && Weight(3) == 0x100_0000 && Weight(4) == 0x1_0000_0000;
    assert Up(0x1_0000_0000) % Weight(4) == 0;
    assert Down(0) % Weight(4) == Down(0x1_0000_0000) % Weight(4);
  }

  lemma Narrow(v: Unsigned64)
    requires v as nat < 0x1_0000_0000
    ensures Up(v) % Weight(4) == v as nat && Down(v) % Weight(4) == 0xFFFF_FFFF - v as nat
  {
    assert Weight(1) == 256 && Weight(2) == 0x1_0000 && Weight(3) == 0x100_0000 && Weight(4) == 0x1_0000_0000;
  }

  lemma SortsNarrow(limit: nat, indexer: Unsigned64 -> nat, cmp: (Unsigned64, Unsigned64) -> bool,
      xs: seq<Unsigned64>, ys: seq<Unsigned64>)
    requires limit <= 0x1_0000_0000 && AllBelow(limit, xs) && StablySorted(ByLow(indexer, 4), xs, ys)
    requires forall x, y :: x as nat < limit && y as nat < limit ==> (cmp(x, y) <==> ByLow(indexer, 4)(x, y))
    ensures SortedPermutation(cmp, xs, ys)
  {
    StableIsPermutation(ByLow(indexer, 4), xs, ys);
    forall i | 0 <= i < |ys| ensures ys[i] as nat < limit {
      assert ys[i] in multiset(ys);
      assert ys[i] in xs;
    }
  }
}
