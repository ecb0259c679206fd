/**
 The ring buffer: a queue in an array with one element more than its capacity, with positions that are
 64-bit numbers.
 */
module RingBuffer {
  import opened Basics
  import opened Positions

  const TWO_64: nat := 0x1_0000_0000_0000_0000

  /** a - b in 64 bits. */
  function Minus(a: nat, b: nat): nat
    requires a < TWO_64 && b < TWO_64
  {
    if a >= b then a - b else a + TWO_64 - b
  }

  // ----- positions -----

  ghost predicate InRange(head: nat, tail: nat, capacity: nat) {
    head < capacity < TWO_64 && tail < capacity
  }

  /** How many elements there are from head to tail, going round. */
  function Count(head: nat, tail: nat, capacity: nat): nat
    requires head < capacity && tail < capacity
  {
    if tail >= head then tail - head else tail + capacity - head
  }

  /** What size() computes. */
  function SizeOf(head: nat, tail: nat, capacity: nat): nat
    requires InRange(head, tail, capacity)
  {
    Minus(tail, head) % capacity
  }

  /** Which position back() looks at. */
  function BackOf(tail: nat, capacity: nat): nat
    requires tail < capacity < TWO_64
  {
    Minus(tail, 1) % capacity
  }

  /** The i-th position from head on, going round. */
  function At(head: nat, i: nat, capacity: nat): nat
    requires head < capacity && i < capacity
  {
    if head + i < capacity then head + i else head + i - capacity
  }

  /** Subtracting in 64 bits before the modulus is right if nothing wraps around or the capacity divides 2^64. */
  lemma SizeIsCount(head: nat, tail: nat, capacity: nat)
    requires InRange(head, tail, capacity) && (tail >= head || TWO_64 % capacity == 0)
    ensures SizeOf(head, tail, capacity) == Count(head, tail, capacity)
  {
    if tail >= head {
      Reduced(tail - head, tail - head, capacity, 0);
    } else {
      var q := TWO_64 / capacity;
      assert TWO_64 == q * capacity;
      assert (q - 1) * capacity == q * capacity - capacity;
      Reduced(tail + TWO_64 - head, tail + capacity - head, capacity, q - 1);
    }
  }

  lemma BackIsLast(tail: nat, capacity: nat)
    requires tail < capacity < TWO_64 && (tail > 0 || TWO_64 % capacity == 0)
    ensures BackOf(tail, capacity) == if tail > 0 then tail - 1 else capacity - 1
  {
    if tail > 0 {
      Reduced(tail - 1, tail - 1, capacity, 0);
    } else {
      var q := TWO_64 / capacity;
      assert TWO_64 == q * capacity;
      assert (q - 1) * capacity == q * capacity - capacity;
      Reduced(TWO_64 - 1, capacity - 1, capacity, q - 1);
    }
  }

  /** If the largest 64-bit number is one less than a multiple of the capacity, the capacity divides 2^64. */
  lemma Divides(capacity: nat)
    requires 0 < capacity < TWO_64 && (TWO_64 - 1) % capacity == capacity - 1
    ensures TWO_64 % capacity == 0
  {
    var q := (TWO_64 - 1) / capacity;
    assert TWO_64 - 1 == q * capacity + (capacity - 1);
    assert (q + 1) * capacity == q * capacity + capacity;
    Reduced(TWO_64, 0, capacity, q + 1);
  }

  ghost predicate SizeRight(capacity: nat) {
    forall head: nat, tail: nat ::
      InRange(head, tail, capacity) ==> SizeOf(head, tail, capacity) == Count(head, tail, capacity)
  }

  ghost predicate BackRight(capacity: nat) {
    forall tail: nat ::
      tail < capacity < TWO_64 ==> BackOf(tail, capacity) == if tail > 0 then tail - 1 else capacity - 1
  }

  ghost predicate FullRight(capacity: nat) {
    forall head: nat, tail: nat :: InRange(head, tail, capacity) ==>
      (SizeOf(head, tail, capacity) == capacity - 1 <==> Count(head, tail, capacity) == capacity - 1)
  }

  /** size(), back() and the comparison in full() are right at all positions exactly if the capacity divides 2^64. */
  lemma RightIfDividing(capacity: nat)
    requires 0 < capacity < TWO_64
    ensures SizeRight(capacity) <==> TWO_64 % capacity == 0
    ensures BackRight(capacity) <==> TWO_64 % capacity == 0
    ensures FullRight(capacity) <==> TWO_64 % capacity == 0
  {
    if TWO_64 % capacity == 0 {
      forall head: nat, tail: nat | InRange(head, tail, capacity)
        ensures SizeOf(head, tail, capacity) == Count(head, tail, capacity)
      {
        SizeIsCount(head, tail, capacity);
      }
      forall tail: nat | tail < capacity ensures BackOf(tail, capacity) == if tail > 0 then tail - 1 else capacity - 1 {
        BackIsLast(tail, capacity);
      }
    } else {
      assert BackOf(0, capacity) == (TWO_64 - 1) % capacity;
      if (TWO_64 - 1) % capacity == capacity - 1 { Divides(capacity); }
      assert capacity > 1;
      assert SizeOf(1, 0, capacity) == (TWO_64 - 1) % capacity && Count(1, 0, capacity) == capacity - 1;
      assert InRange(1, 0, capacity);
    }
  }

  lemma OddTimesOdd(c: nat, q: nat)
    requires c % 2 == 1 && q % 2 == 1
    ensures c * q % 2 == 1
  {
    var h, j := c / 2, q / 2;
    calc {
      c * q;
      (2 * h + 1) * q;
      2 * (h * q) + q;
    }
  }

  lemma HalfTimes(c: nat, q: nat)
    requires c % 2 == 0
    ensures c / 2 * q * 2 == c * q
  {
    var h := c / 2;
    calc {
      c * q;
      (2 * h) * q;
      2 * (h * q);
    }
  }

  lemma One(c: nat, q: nat)
    requires c * q == 1
    ensures c == 1
  {
    if q > 0 {
      MultipleIsFar(q, c);
      assert c * q == q * c;
    }
  }

  /** Only powers of two divide powers of two. */
  lemma {:induction false} DivisorOfPower(c: nat, q: nat, k: nat)
    requires c * q == Power(k)
    ensures PowerOfTwo(c)
    decreases k
  {
    if k == 0 {
      One(c, q);
    } else if c % 2 == 0 {
      HalfTimes(c, q);
      DivisorOfPower(c / 2, q, k - 1);
      DoublePower(c / 2);
    } else {
      if q % 2 == 1 { OddTimesOdd(c, q); }
      HalfTimes(q, c);
      assert c * (q / 2) == q / 2 * c && c * q == q * c;
      DivisorOfPower(c, q / 2, k - 1);
    }
  }

  lemma {:induction false} PowerDividesPower(c: nat, k: nat) returns (q: nat)
    requires PowerOfTwo(c) && c <= Power(k)
    ensures c * q == Power(k)
  {
    if c == 1 {
      q := Power(k);
    } else {
      q := PowerDividesPower(c / 2, k - 1);
      assert c == 2 * (c / 2);
      assert 2 * (c / 2) * q == 2 * (c / 2 * q);
    }
  }

  lemma SixtyFour()
    ensures Power(64) == TWO_64
  {
    assert Power(8) == 256;
    assert Power(16) == 256 * Power(8);
    assert Power(24) == 256 * Power(16);
    assert Power(32) == 256 * Power(24);
    assert Power(40) == 256 * Power(32);
    assert Power(48) == 256 * Power(40);
    assert Power(56) == 256 * Power(48);
    assert Power(64) == 256 * Power(56);
  }

  /** The capacities at which the 64-bit arithmetic is right are the powers of two. */
  lemma DividingIsPower(capacity: nat)
    requires 0 < capacity < TWO_64
    ensures TWO_64 % capacity == 0 <==> PowerOfTwo(capacity)
  {
    SixtyFour();
    if PowerOfTwo(capacity) {
      var q := PowerDividesPower(capacity, 64);
      Reduced(TWO_64, 0, capacity, q);
    }
    if TWO_64 % capacity == 0 {
      assert capacity * (TWO_64 / capacity) == TWO_64;
      DivisorOfPower(capacity, TWO_64 / capacity, 64);
    }
  }

  // ----- the buffer -----

  /** The elements from head to tail. */
  function Elements<T>(data: seq<T>, head: nat, tail: nat): seq<T>
    requires head < |data| && tail < |data|
  {
    seq(Count(head, tail, |data|), i requires 0 <= i < Count(head, tail, |data|) => data[At(head, i, |data|)])
  }

  /** (i + 1) % capacity */
  function Next(i: nat, capacity: nat): nat
    requires i < capacity
  {
    (i + 1) % capacity
  }

  lemma NextIs(i: nat, capacity: nat)
    requires i < capacity
    ensures Next(i, capacity) == if i + 1 == capacity then 0 else i + 1
  {
    if i + 1 == capacity { Reduced(i + 1, 0, capacity, 1); } else { Reduced(i + 1, i + 1, capacity, 0); }
  }

  lemma Pushed<T>(data: seq<T>, head: nat, tail: nat, value: T)
    requires head < |data| && tail < |data| && Count(head, tail, |data|) < |data| - 1
    ensures var tail' := Next(tail, |data|);
            tail' < |data| && Elements(data[tail := value], head, tail') == Elements(data, head, tail) + [value]
  {
    NextIs(tail, |data|);
  }

  /** A push into a buffer without room empties it. */
  lemma PushedOver<T>(data: seq<T>, head: nat, tail: nat)
    requires head < |data| && tail < |data| && Count(head, tail, |data|) >= |data| - 1
    ensures Next(tail, |data|) == head
  {
    NextIs(tail, |data|);
  }

  lemma Popped<T>(data: seq<T>, head: nat, tail: nat)
    requires head < |data| && tail < |data| && head != tail
    ensures var head' := Next(head, |data|);
            head' < |data| && [data[head]] + Elements(data, head', tail) == Elements(data, head, tail)
  {
    NextIs(head, |data|);
  }

  /** The copying loop of the copy constructor. */
  method CopyAround<T>(source: array<T>, target: array<T>, head: nat, tail: nat)
    requires source != target && head < source.Length == target.Length && tail < source.Length
    modifies target
    ensures Elements(target[..], head, tail) == Elements(source[..], head, tail)
  {
    var i := head;
    ghost var n, count, capacity := 0, Count(head, tail, source.Length), source.Length;
    while i != tail
      invariant i < capacity && n <= count
      invariant if n == count then i == tail else i == At(head, n, capacity) != tail
      invariant forall k: nat :: k < n ==> SameAt(source, target, At(head, k, capacity))
      decreases count - n
    {
      target[i] := source[i];
      assert SameAt(source, target, At(head, n, capacity));
      NextIs(i, capacity);
      i := Next(i, source.Length);
      n := n + 1;
    }
    forall k: nat | k < count ensures target[At(head, k, capacity)] == source[At(head, k, capacity)] {
      assert SameAt(source, target, At(head, k, capacity));
    }
  }

  ghost predicate SameAt<T>(source: array<T>, target: array<T>, i: nat)
    requires i < source.Length == target.Length
    reads source, target
  {
    target[i] == source[i]
  }

  /**
   How reserve and shrink_to_fit end.  Overrun models a store beyond the new array, and a tail that is
   not one of its positions.
   */
  datatype Outcome = Done | NoMemory | Overrun

  class Buffer<T(0)> {
    var mHead: nat
    var mTail: nat
    var mCapacity: nat
    var mData: array?<T>

    /** Without storage the buffer has the one position that an empty queue needs. */
    ghost predicate Valid()
      reads this
    {
      && InRange(mHead, mTail, mCapacity)
      && (if mData == null then mCapacity == 1 else mData.Length == mCapacity)
    }

    ghost function Repr(): set<object>
      reads this
    {
      if mData == null then {} else {mData}
    }

    /** The queue, first in first. */
    ghost function Contents(): seq<T>
      requires Valid()
      reads this, Repr()
    {
      if mData == null then [] else Elements(mData[..], mHead, mTail)
    }

    constructor ()
      ensures Valid() && Contents() == [] && mCapacity == 1 && mData == null
    {
      mHead, mTail, mCapacity, mData := 0, 0, 1, null;
    }

    function Empty(): (r: bool)
      requires Valid()
      reads this, Repr()
      ensures r <==> Contents() == []
    {
      mHead == mTail
    }

    function Size(): nat
      requires Valid()
      reads this
    {
      SizeOf(mHead, mTail, mCapacity)
    }

    function Capacity(): nat
      requires Valid()
      reads this
    {
      mCapacity - 1
    }

    function Full(): (r: bool)
      requires Valid()
      reads this
      ensures mData == null ==> !r
    {
      mData != null && Capacity() == Size()
    }

    /** The 64-bit subtraction does not wrap around, or does no harm if it does. */
    ghost predicate Exact()
      reads this
    {
      mCapacity > 0 && (mTail >= mHead || TWO_64 % mCapacity == 0)
    }

    lemma SizeIs()
      requires Valid() && Exact()
      ensures Size() == |Contents()| <= Capacity()
      ensures mData != null ==> (Full() <==> |Contents()| == Capacity())
    {
      SizeIsCount(mHead, mTail, mCapacity);
    }

    method Clear()
      requires Valid()
      modifies this
      ensures Valid() && Contents() == [] && mCapacity == 1 && mData == null
    {
      mHead, mTail, mCapacity, mData := 0, 0, 1, null;
    }

    /** push_unchecked: if there is no room the tail meets the head, and the buffer counts as empty. */
    method PushUnchecked(value: T)
      requires Valid() && mData != null
      modifies `mTail, Repr()
      ensures Valid() && mData == old(mData) && mTail == Next(old(mTail), mCapacity)
      ensures Contents() == if |old(Contents())| < Capacity() then old(Contents()) + [value] else []
    {
      if |Contents()| < Capacity() { Pushed(mData[..], mHead, mTail, value); }
      else { PushedOver(mData[..], mHead, mTail); }
      mData[mTail] := value;
      mTail := Next(mTail, mCapacity);
    }

    /**
     A push that is guarded by full(), as in push() when no growth is needed.  The guard holds if the
     size is right; otherwise it may refuse although there is room, or run over the elements.
     */
    method PushGuarded(value: T) returns (ok: bool)
      requires Valid() && mData != null
      modifies `mTail, Repr()
      ensures Valid() && mData == old(mData)
      ensures ok <==> !old(Full())
      ensures old(Exact()) ==> (ok <==> |old(Contents())| < Capacity())
      ensures if !ok then Contents() == old(Contents())
              else Contents() == if |old(Contents())| < Capacity() then old(Contents()) + [value] else []
    {
      if Exact() { SizeIs(); }
      ok := !Full();
      if ok { PushUnchecked(value); }
    }

    /** pop_unchecked: the caller sees to it that there is an element. */
    method PopUnchecked() returns (value: T)
      requires Valid() && !Empty()
      modifies `mHead
      ensures Valid() && [value] + Contents() == old(Contents()) && mHead == Next(old(mHead), mCapacity)
    {
      Popped(mData[..], mHead, mTail);
      value := mData[mHead];
      mHead := Next(mHead, mCapacity);
    }

    method Pop() returns (value: Option<T>)
      requires Valid()
      modifies `mHead
      ensures Valid()
      ensures if old(Contents()) == [] then value == None && Contents() == []
              else value == Some(old(Contents())[0]) && Contents() == old(Contents())[1..]
    {
      if Empty() {
        return None;
      }
      var v := PopUnchecked();
      value := Some(v);
    }

    method Front() returns (value: T)
      requires Valid() && !Empty()
      ensures value == Contents()[0]
    {
      value := mData[mHead];
    }

    method Back() returns (value: T)
      requires Valid() && !Empty() && (mTail > 0 || TWO_64 % mCapacity == 0)
      ensures value == Contents()[|Contents()| - 1]
    {
      BackIsLast(mTail, mCapacity);
      value := mData[BackOf(mTail, mCapacity)];
    }

    /**
     The copying loop of reserve.  It may only run past the end of the new array if the new capacity
     was taken from a wrong size.
     */
    method CopyOut(target: array<T>) returns (ok: bool, newEnd: nat)
      requires Valid() && (mData as object?) != target as object
      modifies target
      ensures ok <==> |Contents()| <= target.Length
      ensures ok ==> newEnd == |Contents()| && target[..newEnd] == Contents()
    {
      var iter := mHead;
      newEnd := 0;
      ghost var all := Contents();
      while iter != mTail
        invariant iter < mCapacity && newEnd <= |all| && newEnd <= target.Length
        invariant if newEnd == |all| then iter == mTail else iter == At(mHead, newEnd, mCapacity) != mTail
        invariant target[..newEnd] == all[..newEnd]
        decreases |all| - newEnd
      {
        if newEnd == target.Length {
          return false, newEnd;
        }
        target[newEnd] := mData[iter];
        NextIs(iter, mCapacity);
        iter := Next(iter, mCapacity);
        newEnd := newEnd + 1;
      }
      assert all[..newEnd] == all;
      ok := true;
    }

    /**
     reserve.  If the size is right it keeps the contents, and makes the capacity what was asked for
     or what the contents need.  For a request of 2^64 - 1 the number of positions wraps around to 0.
     */
    method Reserve(requestedCapacity: nat, memory: bool) returns (r: Outcome)
      requires Valid() && requestedCapacity < TWO_64
      modifies this
      ensures Valid() && (r == Overrun ==> !old(Exact()) || requestedCapacity == TWO_64 - 1)
      ensures requestedCapacity == TWO_64 - 1 ==> r != Done
      ensures requestedCapacity == 0 ==> r == Done
      ensures r != Done ==> Contents() == old(Contents())
      ensures r == Done && requestedCapacity == 0 ==> Contents() == [] && Capacity() == 0
      ensures r == Done && requestedCapacity > 0 && old(Exact()) ==>
                && Contents() == old(Contents())
                && Capacity() == (if requestedCapacity < |old(Contents())| then |old(Contents())|
                                  else requestedCapacity)
      ensures r == NoMemory ==> !memory
      ensures mData == null || mData == old(mData) || (fresh(mData) && mHead == 0)
      ensures r == Done && requestedCapacity > 0 && requestedCapacity != old(Capacity()) ==>
                mData != null && fresh(mData)
      ensures !memory && requestedCapacity > 0 && requestedCapacity != old(Capacity()) ==> r == NoMemory
    {
      if requestedCapacity == 0 {
        Clear();
        return Done;
      }
      var currentSize := Size();
      var requested := requestedCapacity;
      if requested == Capacity() {
        if Exact() { SizeIs(); }
        return Done;
      } else if requested < currentSize {
        requested := currentSize;
      }
      if Exact() { SizeIs(); }
      r := Move(requested, memory);
    }

    /** The end of reserve: the elements move to new storage. */
    method Move(requested: nat, memory: bool) returns (r: Outcome)
      requires Valid() && requested < TWO_64
      modifies this
      ensures Valid() && (r == NoMemory <==> !memory)
      ensures r != Done ==> Contents() == old(Contents()) && mData == old(mData)
      ensures r == Done ==>
                && Contents() == old(Contents()) && mCapacity == requested + 1
                && mData != null && fresh(mData) && mHead == 0
      ensures r == Overrun <==> memory && (|old(Contents())| > requested || requested == TWO_64 - 1)
    {
      var newCapacity := (requested + 1) % TWO_64;
      if !memory {
        return NoMemory;
      }
      var tmp := new T[newCapacity];
      var ok, newEnd := CopyOut(tmp);
      if !ok || newEnd == newCapacity {
        return Overrun;
      }
      ghost var was := Contents();
      mHead, mTail, mCapacity, mData := 0, newEnd, newCapacity, tmp;
      assert Contents() == tmp[..newEnd];
      r := Done;
    }

    /** shrink_to_fit: keeps the contents if the size is right. */
    method ShrinkToFit(memory: bool) returns (r: Outcome)
      requires Valid()
      modifies this
      ensures Valid() && (r == Overrun ==> !old(Exact())) && (r == NoMemory ==> !memory)
      ensures old(Exact()) ==> Contents() == old(Contents())
      ensures old(Size()) == 0 ==> r == Done && Contents() == []
      ensures old(Exact()) && r == Done ==> Capacity() == |old(Contents())|
    {
      if Exact() { SizeIs(); }
      assert Size() < mCapacity by { Division(Minus(mTail, mHead), mCapacity); }
      r := Reserve(Size(), memory);
    }

    /** The constructor with a requested capacity. */
    constructor Reserved(requestedCapacity: nat, memory: bool)
      requires requestedCapacity < TWO_64
      ensures Valid() && Contents() == [] && (mData != null ==> fresh(mData))
      ensures memory && requestedCapacity < TWO_64 - 1 ==> Capacity() == requestedCapacity
      ensures memory && 0 < requestedCapacity < TWO_64 - 1 ==> mData != null && mHead == mTail == 0
    {
      mHead, mTail, mCapacity, mData := 0, 0, 1, null;
      new;
      assert Exact();
      var r := Reserve(requestedCapacity, memory);
    }

    /** The copy constructor: an empty buffer is copied without its storage. */
    constructor Copy(other: Buffer<T>, memory: bool)
      requires other.Valid()
      ensures Valid() && (mData != null ==> fresh(mData))
      ensures if memory then Contents() == other.Contents() else Contents() == []
      ensures Contents() != [] ==> mCapacity == other.mCapacity
    {
      mHead, mTail, mCapacity, mData := 0, 0, 1, null;
      new;
      if !other.Empty() && memory {
        var data := new T[other.mCapacity];
        CopyAround(other.mData, data, other.mHead, other.mTail);
        mHead, mTail, mCapacity, mData := other.mHead, other.mTail, other.mCapacity, data;
      }
    }
  }

  /**
   With three positions, two elements and the tail gone round, size() is 0: shrink_to_fit drops both
   elements.  A third element then is not refused either, and runs over them.
   */
  method ThreePositions<T(0)>(x: T, y: T, z: T) returns (shrunk: Buffer<T>, pushed: Buffer<T>, refused: bool)
    ensures shrunk.Valid() && shrunk.Contents() == []
    ensures pushed.Valid() && pushed.Contents() == [] && !refused
  {
    shrunk := TailGoneRound(x, y, z);
    var outcome := shrunk.ShrinkToFit(true);
    pushed := TailGoneRound(x, y, z);
    var ok := pushed.PushGuarded(x);
    refused := !ok;
  }

  /** Two elements are pushed, one is popped, and another one is pushed. */
  method TailGoneRound<T(0)>(x: T, y: T, z: T) returns (b: Buffer<T>)
    ensures fresh(b) && fresh(b.Repr()) && b.Valid() && b.mData != null && b.mCapacity == 3 && b.mHead == 1
            && b.mTail == 0
    ensures b.Contents() == [y, z] && b.Size() == 0
  {
    b := TwoPushed(x, y);
    var first := b.PopUnchecked();
    assert ([first] + b.Contents())[1..] == b.Contents();
    b.PushUnchecked(z);
  }

  method TwoPushed<T(0)>(x: T, y: T) returns (b: Buffer<T>)
    ensures fresh(b) && fresh(b.Repr()) && b.Valid() && b.mData != null && b.mCapacity == 3 && b.mHead == 0
            && b.mTail == 2
    ensures b.Contents() == [x, y]
  {
    b := new Buffer.Reserved(2, true);
    b.PushUnchecked(x);
    b.PushUnchecked(y);
  }
}
