/**
 What the bit matrix says about the order in which the slots were touched.
 */
module MatrixOrder {
  import opened BitMatrix

  /** Where a slot is in an order, the latest touched first; an untouched slot is behind all others. */
  function Pos(order: seq<Slot>, i: Slot): nat {
    if order == [] || order[0] == i then 0 else 1 + Pos(order[1..], i)
  }

  function Removed(order: seq<Slot>, i: Slot): seq<Slot> {
    if order == [] then [] else if order[0] == i then order[1..] else [order[0]] + Removed(order[1..], i)
  }

  /** The order after one more touch. */
  function Front(order: seq<Slot>, i: Slot): seq<Slot> {
    [i] + Removed(order, i)
  }

  ghost predicate Distinct(order: seq<Slot>) {
    order == [] || (order[0] !in order[1..] && Distinct(order[1..]))
  }

  /** Bit j of row i is set exactly if i was touched and j is untouched or older. */
  ghost predicate Shows(cols: bv64, order: seq<Slot>) {
    forall i: Slot, j: Slot :: Bit(cols, i, j) <==> Pos(order, i) < Pos(order, j)
  }

  lemma {:induction false} PosIs(order: seq<Slot>, i: Slot)
    ensures Pos(order, i) <= |order|
    ensures Pos(order, i) == |order| <==> i !in order
    ensures i in order ==> order[Pos(order, i)] == i
  {
    if order != [] { PosIs(order[1..], i); }
  }

  lemma {:induction false} PosRemoved(order: seq<Slot>, i: Slot, a: Slot, b: Slot)
    requires a != i && b != i
    ensures Pos(Removed(order, i), a) < Pos(Removed(order, i), b) <==> Pos(order, a) < Pos(order, b)
  {
    if order != [] && order[0] != i {
      PosRemoved(order[1..], i, a, b);
      assert Removed(order, i)[1..] == Removed(order[1..], i);
    }
  }

  lemma {:induction false} RemovedIs(order: seq<Slot>, i: Slot)
    requires Distinct(order)
    ensures Distinct(Removed(order, i)) && i !in Removed(order, i)
    ensures forall j :: j in Removed(order, i) <==> j in order && j != i
    ensures |Removed(order, i)| == if i in order then |order| - 1 else |order|
  {
    if order != [] {
      RemovedIs(order[1..], i);
      if order[0] != i {
        var rest := Removed(order[1..], i);
        assert Removed(order, i)[1..] == rest;
        assert forall j :: j in [order[0]] + rest <==> j == order[0] || j in rest;
      }
    }
  }

  lemma FrontDistinct(order: seq<Slot>, i: Slot)
    requires Distinct(order)
    ensures Distinct(Front(order, i)) && forall j :: j in Front(order, i) <==> j in order || j == i
    ensures |Front(order, i)| == if i in order then |order| else |order| + 1
  {
    RemovedIs(order, i);
    assert Front(order, i)[1..] == Removed(order, i);
  }

  /** A touch keeps the matrix and the order in step. */
  lemma TouchShows(cols: bv64, order: seq<Slot>, i: Slot)
    requires Shows(cols, order)
    ensures Shows(Touched(cols, Word(i)), Front(order, i))
  {
    forall a: Slot, b: Slot
      ensures Bit(Touched(cols, Word(i)), a, b) <==> Pos(Front(order, i), a) < Pos(Front(order, i), b)
    {
      assert Front(order, i)[1..] == Removed(order, i);
      TouchedBits(cols, Word(i), Word(a), Word(b));
      WordsDiffer(a, i);
      WordsDiffer(b, i);
      if a != i && b != i {
        assert Bit(cols, a, b) <==> Pos(order, a) < Pos(order, b);
        PosRemoved(order, i, a, b);
      }
    }
  }

  lemma NothingTouched()
    ensures Shows(0, [])
  {
    forall i: Slot, j: Slot ensures !Bit(0, i, j) { NoBits(Word(i), Word(j)); }
  }

  lemma NoBits(i: bv64, j: bv64)
    requires i < 8 && j < 8
    ensures !BitAt(0, i, j)
  {
  }

  function MatrixAfter(touches: seq<Slot>): bv64 {
    if touches == [] then 0 else Touched(MatrixAfter(touches[..|touches| - 1]), Word(touches[|touches| - 1]))
  }

  function OrderAfter(touches: seq<Slot>): seq<Slot> {
    if touches == [] then [] else Front(OrderAfter(touches[..|touches| - 1]), touches[|touches| - 1])
  }

  /** After any run of touches the matrix is the order of the slots. */
  lemma {:induction false} MatrixIsOrder(touches: seq<Slot>)
    ensures Shows(MatrixAfter(touches), OrderAfter(touches)) && Distinct(OrderAfter(touches))
  {
    if touches == [] {
      NothingTouched();
    } else {
      MatrixIsOrder(touches[..|touches| - 1]);
      TouchShows(MatrixAfter(touches[..|touches| - 1]), OrderAfter(touches[..|touches| - 1]), touches[|touches| - 1]);
      FrontDistinct(OrderAfter(touches[..|touches| - 1]), touches[|touches| - 1]);
    }
  }

  // ----- the least recently used slot -----

  /** The slot to be reused: the lowest untouched one, or else the one touched longest ago. */
  ghost predicate IsVictim(order: seq<Slot>, i: Slot) {
    if |order| < 8 then i !in order && forall k: Slot :: k < i ==> k in order
    else i == order[|order| - 1]
  }

  lemma NoneLater(order: seq<Slot>, i: Slot, zero: bool, bit: Slot -> bool)
    requires forall j: Slot {:trigger bit(j)} :: bit(j) <==> Pos(order, i) < Pos(order, j)
    requires zero <==> (!bit(0) && !bit(1) && !bit(2) && !bit(3) && !bit(4) && !bit(5) && !bit(6) && !bit(7))
    ensures zero <==> forall j: Slot :: Pos(order, j) <= Pos(order, i)
  {
    if zero {
      forall j: Slot ensures Pos(order, j) <= Pos(order, i) { assert !bit(j); }
    } else {
      assert bit(0) || bit(1) || bit(2) || bit(3) || bit(4) || bit(5) || bit(6) || bit(7);
      var j: Slot :| bit(j);
      assert Pos(order, i) < Pos(order, j);
    }
  }

  /** A row is zero if its slot is behind all others. */
  lemma ZeroRowIs(cols: bv64, order: seq<Slot>, i: Slot)
    requires Shows(cols, order)
    ensures ZeroRow(cols, Word(i)) <==> forall j: Slot :: Pos(order, j) <= Pos(order, i)
  {
    RowOfBits(cols, i);
    NoneLater(order, i, ZeroRow(cols, Word(i)), (j: Slot) => Bit(cols, i, j));
  }

  lemma {:induction false} LastPos(order: seq<Slot>)
    requires Distinct(order) && order != []
    ensures Pos(order, order[|order| - 1]) == |order| - 1
  {
    if |order| > 1 {
      assert order[1..][|order| - 2] == order[|order| - 1];
      LastPos(order[1..]);
    }
  }

  /** The slots that are not in the order, from slot k on. */
  lemma {:induction false} FreeSlot(order: seq<Slot>, k: nat) returns (i: nat)
    requires k <= 8 && forall j: nat :: j < k ==> j in order
    ensures k <= i <= 8 && (i < 8 ==> i !in order) && forall j: nat :: j < i ==> j in order
    decreases 8 - k
  {
    if k == 8 || k !in order { i := k; } else { i := FreeSlot(order, k + 1); }
  }

  function Elements(order: seq<Slot>): set<Slot> {
    if order == [] then {} else {order[0]} + Elements(order[1..])
  }

  lemma {:induction false} AsSet(order: seq<Slot>)
    requires Distinct(order)
    ensures |Elements(order)| == |order| && forall i: Slot :: i in Elements(order) <==> i in order
  {
    if order != [] { AsSet(order[1..]); }
  }

  function Slots(): (s: set<Slot>)
    ensures |s| == 8 && forall i: Slot :: i in s
  {
    {0, 1, 2, 3, 4, 5, 6, 7}
  }

  /** Fewer than 8 slots leave one free. */
  lemma AllSlots(order: seq<Slot>)
    requires Distinct(order)
    ensures |order| <= 8 && ((forall j: Slot :: j in order) <==> |order| == 8)
  {
    AsSet(order);
    var used := Elements(order);
    SubsetSize(used, Slots());
    if |order| == 8 {
      SameSize(used, Slots());
      forall j: Slot ensures j in order { assert j in Slots(); }
    } else if forall j: Slot :: j in order {
      SubsetSize(Slots(), used);
    }
  }

  lemma SubsetSize<T>(a: set<T>, b: set<T>)
    requires a <= b
    ensures |a| <= |b|
  {
    assert b == a + (b - a);
  }

  lemma SameSize<T>(a: set<T>, b: set<T>)
    requires a <= b && |a| == |b|
    ensures a == b
  {
    assert b == a + (b - a);
    assert |b - a| == 0;
  }

  /** There is a slot to reuse, and it is the lowest zero row. */
  lemma Victim(cols: bv64, order: seq<Slot>) returns (i: Slot)
    requires Shows(cols, order) && Distinct(order)
    ensures IsVictim(order, i) && LowestZero(cols, i)
  {
    AllSlots(order);
    if |order| < 8 {
      i := FreeSlot(order, 0);
      PosIs(order, i);
    } else {
      i := order[7];
      LastPos(order);
    }
    forall j: Slot ensures Pos(order, j) <= Pos(order, i) {
      PosIs(order, j);
    }
    ZeroRowIs(cols, order, i);
    LowerRows(cols, order, i);
  }

  lemma LowerRows(cols: bv64, order: seq<Slot>, i: Slot)
    requires Shows(cols, order) && Distinct(order) && IsVictim(order, i) && ZeroRow(cols, Word(i)) && |order| <= 8
    requires |order| == 8 ==> forall j: Slot :: j in order
    ensures LowestZero(cols, i)
  {
    forall k: Slot | k < i ensures !ZeroRow(cols, Word(k)) {
      ZeroRowIs(cols, order, k);
      PosIs(order, k);
      PosIs(order, i);
      if |order| == 8 { LastPos(order); }
      assert Pos(order, i) > Pos(order, k);
    }
    assert Word(0) == 0 && Word(1) == 1 && Word(2) == 2 && Word(3) == 3 && Word(4) == 4 && Word(5) == 5 && Word(6) == 6;
  }
}
