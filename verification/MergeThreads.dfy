/**
 The parallel sort_merge_iterative: in the round for k, thread t merges the blocks of 2k elements
 whose number is t modulo the number of threads, through a shared buffer and back.

 The shared cells are the array followed by the buffer.  Every load and store of the merge loops is
 a step of its own.
 */
module MergeThreads {
  import opened Basics
  import opened Order
  import opened Positions
  import opened Merging
  import opened Phases

  /** Where a thread is: the loop variables left, m, i, j, and the elements it has loaded. */
  datatype Point<V> =
    | Seek(left: nat)
    | Test(left: nat, m: nat, i: nat, j: nat)
    | GotRight(left: nat, m: nat, i: nat, j: nat, v: V)
    | TakeLeft(left: nat, m: nat, i: nat, j: nat)
    | TakeRight(left: nat, m: nat, i: nat, j: nat)
    | PutLeft(left: nat, m: nat, i: nat, j: nat, v: V)
    | PutRight(left: nat, m: nat, i: nat, j: nat, v: V)
    | Copy(left: nat, m: nat)
    | CopyPut(left: nat, m: nat, v: V)

  function Act<V>(cmp: (V, V) -> bool, count: nat, k: nat, stride: nat, l: Point<V>): Action<Point<V>, V> {
    var rght := l.left + k;
    var rend := Min(rght + k, count);
    match l
    case Seek(left) => if left + k < count then Local(Test(left, left, left, left + k)) else Halt
    case Test(left, m, i, j) =>
      if i < rght && j < rend then Load(j, v => GotRight(left, m, i, j, v))
      else if i < rght then Local(TakeLeft(left, m, i, j))
      else if j < rend then Local(TakeRight(left, m, i, j))
      else Local(Copy(left, left))
    case GotRight(left, m, i, j, v) =>
      Load(i, w => if cmp(v, w) then TakeRight(left, m, i, j) else TakeLeft(left, m, i, j))
    case TakeLeft(left, m, i, j) => Load(i, v => PutLeft(left, m, i, j, v))
    case TakeRight(left, m, i, j) => Load(j, v => PutRight(left, m, i, j, v))
    case PutLeft(left, m, i, j, v) => Store(count + m, v, Test(left, m + 1, i + 1, j))
    case PutRight(left, m, i, j, v) => Store(count + m, v, Test(left, m + 1, i, j + 1))
    case Copy(left, m) =>
      if m < rend then Load(count + m, v => CopyPut(left, m, v)) else Local(Seek(left + stride))
    case CopyPut(left, m, v) => Store(m, v, Copy(left, m + 1))
  }

  /** k = 1, 2, 4, ... */
  function RunLength(r: nat): (k: nat)
    ensures k > 0
  {
    if r == 0 then 1 else 2 * RunLength(r - 1)
  }

  /** How far a thread moves from one of its blocks to the next in the round for k. */
  function Stride(k: nat, threads: nat): nat {
    2 * k * threads
  }

  /** How many rounds the loop over k makes from k on. */
  function RoundsFrom(k: nat, count: nat): nat
    requires k > 0
    decreases if count > k then count - k else 0
  {
    if k >= count then 0 else 1 + RoundsFrom(2 * k, count)
  }

  function SortMerge<V>(cmp: (V, V) -> bool, count: nat, threads: nat): Program<Point<V>, V> {
    Program(threads, RoundsFrom(1, count), 2 * count,
      (r: nat, t: nat) => Seek(2 * RunLength(r) * t),
      (r: nat, t: nat, l: Point<V>) => Act(cmp, count, RunLength(r), Stride(RunLength(r), threads), l))
  }

  // ----- what a round does -----

  /** The start of the block of d that position c lies in. */
  function Start(c: nat, d: nat): nat
    requires d > 0
  {
    if c < d then 0 else d + Start(c - d, d)
  }

  /** A block is merged if it has a second run. */
  predicate Merged(k: nat, count: nat, c: nat)
    requires k > 0
  {
    Start(c, 2 * k) + k < count
  }

  /** The round for k: a pass over the array, with a copy of every merged block in the buffer. */
  function Effect<V>(cmp: (V, V) -> bool, count: nat, k: nat, mem: seq<V>): (r: seq<V>)
    requires k > 0
    ensures |r| == |mem|
  {
    if |mem| != 2 * count then mem else
    var result := Pass(cmp, k, mem[..count]);
    seq(2 * count, c requires 0 <= c < 2 * count =>
      if c < count then result[c]
      else if Merged(k, count, c - count) then result[c - count]
      else mem[c])
  }

  /** The thread that takes care of position c and of its buffer cell. */
  function OwnerOf(count: nat, k: nat, threads: nat, c: nat): nat
    requires k > 0 && threads > 0
  {
    Remainder(Quotient(if c < count then c else c - count, 2 * k), threads)
  }

  /** How far the array has been rewritten. */
  function ItemsDone<V>(l: Point<V>): nat {
    if l.Copy? || l.CopyPut? then l.m else l.left
  }

  /** How far the buffer has been rewritten. */
  function TempDone<V>(count: nat, k: nat, l: Point<V>): nat {
    match l
    case Seek(left) => left
    case Copy(left, m) => Min(left + 2 * k, count)
    case CopyPut(left, m, v) => Min(left + 2 * k, count)
    case _ => l.m
  }

  /** The merge loops stand at i and j in the block at `left`, and write position m next. */
  ghost predicate Standing<V>(cmp: (V, V) -> bool, count: nat, k: nat, left: nat, m: nat, i: nat, j: nat, s: seq<V>,
      result: seq<V>)
    requires |s| == |result| == count
  {
    var rght, rend := left + k, Min(left + 2 * k, count);
    && rght < count && left <= i <= rght <= j <= rend && m == i + (j - rght)
    && Remaining(cmp, s, i, rght, j, rend, result, m)
  }

  /** The merge loops take the left run's element next. */
  ghost predicate LeftNext<V>(cmp: (V, V) -> bool, count: nat, k: nat, left: nat, i: nat, j: nat, s: seq<V>)
    requires |s| == count
  {
    i < left + k && i < count && (j == Min(left + 2 * k, count) || (j < count && !cmp(s[j], s[i])))
  }

  ghost predicate RightNext<V>(cmp: (V, V) -> bool, count: nat, k: nat, left: nat, i: nat, j: nat, s: seq<V>)
    requires |s| == count
  {
    j < Min(left + 2 * k, count) && (i == left + k || (i < count && cmp(s[j], s[i])))
  }

  /** The loop variables of a thread, against the array s at the start of the round and the result of the pass. */
  ghost predicate PointOk<V>(cmp: (V, V) -> bool, count: nat, k: nat, l: Point<V>, s: seq<V>, result: seq<V>)
    requires |s| == |result| == count
  {
    match l
    case Seek(left) => true
    case Test(left, m, i, j) => Standing(cmp, count, k, left, m, i, j, s, result)
    case GotRight(left, m, i, j, v) =>
      Standing(cmp, count, k, left, m, i, j, s, result) && i < left + k && j < Min(left + 2 * k, count) && v == s[j]
    case TakeLeft(left, m, i, j) =>
      Standing(cmp, count, k, left, m, i, j, s, result) && LeftNext(cmp, count, k, left, i, j, s)
    case TakeRight(left, m, i, j) =>
      Standing(cmp, count, k, left, m, i, j, s, result) && RightNext(cmp, count, k, left, i, j, s)
    case PutLeft(left, m, i, j, v) =>
      Standing(cmp, count, k, left, m, i, j, s, result) && LeftNext(cmp, count, k, left, i, j, s) && v == s[i]
    case PutRight(left, m, i, j, v) =>
      Standing(cmp, count, k, left, m, i, j, s, result) && RightNext(cmp, count, k, left, i, j, s) && v == s[j]
    case Copy(left, m) => left + k < count && left <= m <= Min(left + 2 * k, count)
    case CopyPut(left, m, v) => left + k < count && left <= m < Min(left + 2 * k, count) && v == result[m]
  }

  /**
   The cells of a thread are rewritten up to where it stands, and untouched from there on; e is
   what the round is to produce.
   */
  ghost predicate CellsOk<V>(own: iset<nat>, count: nat, itemsDone: nat, tempDone: nat, e: seq<V>, m0: seq<V>,
      m: seq<V>)
    requires |m0| == |m| == |e| == 2 * count
  {
    forall c {:trigger m[c]} :: 0 <= c < 2 * count && c in own ==>
      m[c] == if (if c < count then c < itemsDone else c - count < tempDone) then e[c] else m0[c]
  }

  ghost function Owned(count: nat, k: nat, threads: nat, t: nat): iset<nat>
    requires k > 0 && threads > 0
  {
    iset c: nat | OwnerOf(count, k, threads, c) == t
  }

  ghost predicate Share<V>(cmp: (V, V) -> bool, count: nat, k: nat, own: iset<nat>, l: Point<V>,
      s: seq<V>, result: seq<V>, e: seq<V>, m0: seq<V>, m: seq<V>)
    requires |m0| == |m| == |e| == 2 * count && |s| == |result| == count && k > 0
  {
    PointOk(cmp, count, k, l, s, result) && CellsOk(own, count, ItemsDone(l), TempDone(count, k, l), e, m0, m)
  }

  /** left is the start of a block of thread t. */
  predicate InTurn(k: nat, threads: nat, t: nat, left: nat)
    requires k > 0 && threads > 0
  {
    Aligned(left, 2 * k) && Remainder(Quotient(left, 2 * k), threads) == t
  }

  ghost predicate Inv<V>(cmp: (V, V) -> bool, count: nat, k: nat, threads: nat, t: nat, l: Point<V>, m0: seq<V>,
      m: seq<V>)
    requires |m0| == |m| == 2 * count && k > 0 && threads > 0
  {
    && InTurn(k, threads, t, l.left)
    && Share(cmp, count, k, Owned(count, k, threads, t), l,
             m0[..count], Pass(cmp, k, m0[..count]), Effect(cmp, count, k, m0), m0, m)
  }

  ghost function MergeOutline<V>(cmp: (V, V) -> bool, count: nat, threads: nat): Outline<Point<V>, V>
    requires threads > 0
  {
    Outline(
      (r: nat, c: nat) => OwnerOf(count, RunLength(r), threads, c),
      (r: nat, m: seq<V>) => Effect(cmp, count, RunLength(r), m),
      (r: nat, t: nat, l: Point<V>, m0: seq<V>, m: seq<V>) =>
        |m0| == |m| == 2 * count && Inv(cmp, count, RunLength(r), threads, t, l, m0, m))
  }

  // ----- a thread keeps its share of the invariant -----

  lemma {:induction false} StartOfBlock(left: nat, d: nat, c: nat)
    requires d > 0 && Aligned(left, d) && left <= c < left + d
    ensures Start(c, d) == left
  {
    if left > 0 { StartOfBlock(left - d, d, c - d); }
  }

  /**
   The block at `left` is a merged one: its cells belong to the thread, s holds what was there, and e
   holds the result of the pass there and in the buffer.
   */
  ghost predicate OwnBlock<V>(own: iset<nat>, count: nat, left: nat, rend: nat, s: seq<V>, result: seq<V>, e: seq<V>,
      m0: seq<V>)
    requires |m0| == |e| == 2 * count && |s| == |result| == count && rend <= count
  {
    forall y: nat :: left <= y < rend ==> OwnAt(own, count, y, s, result, e, m0)
  }

  ghost predicate OwnAt<V>(own: iset<nat>, count: nat, y: nat, s: seq<V>, result: seq<V>, e: seq<V>, m0: seq<V>)
    requires |m0| == |e| == 2 * count && |s| == |result| == count && y < count
  {
    && y in own && (count + y) in own
    && m0[y] == s[y] && e[y] == result[y] && e[count + y] == result[y]
  }

  lemma BlockIsOwn<V(!new)>(cmp: (V, V) -> bool, count: nat, k: nat, threads: nat, t: nat, left: nat, own: iset<nat>,
      s: seq<V>, result: seq<V>, e: seq<V>, m0: seq<V>)
    requires |m0| == 2 * count && k > 0 && threads > 0 && InTurn(k, threads, t, left) && left + k < count
    requires own == Owned(count, k, threads, t) && s == m0[..count]
    requires result == Pass(cmp, k, s) && e == Effect(cmp, count, k, m0)
    ensures OwnBlock(own, count, left, Min(left + 2 * k, count), s, result, e, m0)
  {
    forall y: nat | left <= y < Min(left + 2 * k, count) ensures OwnAt(own, count, y, s, result, e, m0) {
      OwnCell(count, k, threads, t, left, y);
      EffectAt(cmp, count, k, m0, y);
    }
  }

  lemma OwnCell(count: nat, k: nat, threads: nat, t: nat, left: nat, y: nat)
    requires k > 0 && threads > 0 && InTurn(k, threads, t, left) && left + k < count
    requires left <= y < Min(left + 2 * k, count)
    ensures y in Owned(count, k, threads, t) && count + y in Owned(count, k, threads, t) && Merged(k, count, y)
  {
    QuotientInBlock(left, 2 * k, y);
    StartOfBlock(left, 2 * k, y);
  }

  lemma EffectAt<V>(cmp: (V, V) -> bool, count: nat, k: nat, m0: seq<V>, y: nat)
    requires |m0| == 2 * count && k > 0 && y < count
    ensures Effect(cmp, count, k, m0)[y] == Pass(cmp, k, m0[..count])[y]
    ensures Merged(k, count, y) ==> Effect(cmp, count, k, m0)[count + y] == Pass(cmp, k, m0[..count])[y]
  {
    assert count + y - count == y;
  }

  /** One more cell of the buffer is rewritten. */
  lemma PutTemp<V(!new)>(own: iset<nat>, count: nat, left: nat, d: nat, e: seq<V>, m0: seq<V>, m: seq<V>)
    requires |m0| == |m| == |e| == 2 * count && d < count && CellsOk(own, count, left, d, e, m0, m)
    ensures CellsOk(own, count, left, d + 1, e, m0, m[count + d := e[count + d]])
  {
    var m' := m[count + d := e[count + d]];
    forall c {:trigger m'[c]} | 0 <= c < 2 * count && c in own
      ensures m'[c] == if (if c < count then c < left else c - count < d + 1) then e[c] else m0[c]
    {
      assert c != count + d ==> m'[c] == m[c];
    }
  }

  /** One more cell of the array is rewritten. */
  lemma PutItem<V(!new)>(own: iset<nat>, count: nat, d: nat, tempDone: nat, e: seq<V>, m0: seq<V>, m: seq<V>)
    requires |m0| == |m| == |e| == 2 * count && d < count && CellsOk(own, count, d, tempDone, e, m0, m)
    ensures CellsOk(own, count, d + 1, tempDone, e, m0, m[d := e[d]])
  {
    var m' := m[d := e[d]];
    forall c {:trigger m'[c]} | 0 <= c < 2 * count && c in own
      ensures m'[c] == if (if c < count then c < d + 1 else c - count < tempDone) then e[c] else m0[c]
    {
      assert c != d ==> m'[c] == m[c];
    }
  }

  /** Between its blocks a thread owns nothing, so it may move on to the next one. */
  lemma MoveOn<V(!new)>(count: nat, k: nat, threads: nat, t: nat, left: nat, next: nat, e: seq<V>, m0: seq<V>,
      m: seq<V>)
    requires |m0| == |m| == |e| == 2 * count && k > 0 && threads > 0 && InTurn(k, threads, t, left)
    requires next == left + Stride(k, threads)
    requires CellsOk(Owned(count, k, threads, t), count, Min(left + 2 * k, count), Min(left + 2 * k, count), e, m0, m)
    ensures InTurn(k, threads, t, next) && CellsOk(Owned(count, k, threads, t), count, next, next, e, m0, m)
  {
    var own, d := Owned(count, k, threads, t), 2 * k;
    NextBlock(left, d, threads);
    forall c {:trigger m[c]} | 0 <= c < 2 * count && c in own
      ensures m[c] == if (if c < count then c < next else c - count < next) then e[c] else m0[c]
    {
      var x := if c < count then c else c - count;
      if left + d <= x < next { BlocksBetween(left, d, threads, x); }
    }
  }

  lemma NextBlock(left: nat, d: nat, threads: nat)
    requires d > 0 && threads > 0 && Aligned(left, d)
    ensures d * threads >= d && Aligned(left + d * threads, d)
    ensures Remainder(Quotient(left + d * threads, d), threads) == Remainder(Quotient(left, d), threads)
  {
    MultipleAligned(d, threads);
    AlignedSum(left, d * threads, d);
    QuotientAdds(left, d * threads, d);
    QuotientAdds(left, 0, d);
    QuotientUnique(d, threads, 0);
    RemainderRepeats(Quotient(left, d), 0, threads);
    assert d * threads == d + d * (threads - 1) && d * (threads - 1) >= 0;
  }

  /** When there is no further block to merge, the round's work on the thread's cells is done. */
  lemma PassTailAt<V>(cmp: (V, V) -> bool, k: nat, s: seq<V>, left: nat, c: nat)
    requires k > 0 && Aligned(left, 2 * k) && |s| <= left + k && left <= c < |s|
    ensures Pass(cmp, k, s)[c] == s[c]
  {
    PassTail(cmp, k, s, left);
    SuffixAt(Pass(cmp, k, s), s, left, c);
  }

  lemma SuffixAt<V>(a: seq<V>, b: seq<V>, left: nat, c: nat)
    requires |a| == |b| && left <= c < |a| && a[left..] == b[left..]
    ensures a[c] == b[c]
  {
    assert a[left..][c - left] == b[left..][c - left];
  }

  lemma NothingLeft<V(!new)>(cmp: (V, V) -> bool, count: nat, k: nat, left: nat, m0: seq<V>, c: nat)
    requires |m0| == 2 * count && k > 0 && Aligned(left, 2 * k) && count <= left + k
    requires c < 2 * count && left <= (if c < count then c else c - count)
    ensures m0[c] == Effect(cmp, count, k, m0)[c]
  {
    if c < count {
      EffectAt(cmp, count, k, m0, c);
      PassTailAt(cmp, k, m0[..count], left, c);
    } else {
      StartAbove(left, 2 * k, c - count);
      assert !Merged(k, count, c - count);
      assert Effect(cmp, count, k, m0)[c] == m0[c];
    }
  }

  lemma {:induction false} StartAbove(left: nat, d: nat, c: nat)
    requires d > 0 && Aligned(left, d) && left <= c
    ensures Start(c, d) >= left
  {
    if left > 0 { StartAbove(left - d, d, c - d); }
  }

  /** What one action must do to keep the invariant, in the terms of this sort. */
  ghost predicate Keeps<V(!new)>(cmp: (V, V) -> bool, count: nat, k: nat, own: iset<nat>, left: nat,
      a: Action<Point<V>, V>,
      s: seq<V>, result: seq<V>, e: seq<V>, m0: seq<V>, m: seq<V>)
    requires |m0| == |m| == |e| == 2 * count && |s| == |result| == count && k > 0
  {
    match a
    case Load(c, receive) =>
      && c < 2 * count && c in own && receive(m[c]).left == left
      && Share(cmp, count, k, own, receive(m[c]), s, result, e, m0, m)
    case Store(c, v, next) =>
      c < 2 * count && c in own && next.left == left && Share(cmp, count, k, own, next, s, result, e, m0, m[c := v])
    case Local(next) => next.left == left && Share(cmp, count, k, own, next, s, result, e, m0, m)
    case Halt => false
  }

  /** Both runs have an element left: the right one is loaded to be compared. */
  lemma TestBoth<V(!new)>(cmp: (V, V) -> bool, count: nat, k: nat, stride: nat, own: iset<nat>, l: Point<V>,
      s: seq<V>, result: seq<V>, e: seq<V>, m0: seq<V>, m: seq<V>)
    requires |m0| == |m| == |e| == 2 * count && |s| == |result| == count && k > 0
    requires OwnBlock(own, count, l.left, Min(l.left + 2 * k, count), s, result, e, m0)
    requires l.Test? && Share(cmp, count, k, own, l, s, result, e, m0, m)
    requires l.i < l.left + k && l.j < Min(l.left + 2 * k, count)
    ensures Keeps(cmp, count, k, own, l.left, Act(cmp, count, k, stride, l), s, result, e, m0, m)
  {
    assert OwnAt(own, count, l.j, s, result, e, m0) && m[l.j] == s[l.j];
    assert PointOk(cmp, count, k, GotRight(l.left, l.m, l.i, l.j, s[l.j]), s, result);
  }

  /** At most one run has elements left. */
  lemma TestOne<V(!new)>(cmp: (V, V) -> bool, count: nat, k: nat, stride: nat, own: iset<nat>, l: Point<V>,
      s: seq<V>, result: seq<V>, e: seq<V>, m0: seq<V>, m: seq<V>)
    requires |m0| == |m| == |e| == 2 * count && |s| == |result| == count && k > 0
    requires OwnBlock(own, count, l.left, Min(l.left + 2 * k, count), s, result, e, m0)
    requires l.Test? && Share(cmp, count, k, own, l, s, result, e, m0, m)
    requires !(l.i < l.left + k && l.j < Min(l.left + 2 * k, count))
    ensures Keeps(cmp, count, k, own, l.left, Act(cmp, count, k, stride, l), s, result, e, m0, m)
  {
    var left, d, i, j := l.left, l.m, l.i, l.j;
    var a := Act(cmp, count, k, stride, l);
    if i < left + k {
      assert a == Local(TakeLeft(left, d, i, j));
      assert PointOk(cmp, count, k, a.next, s, result);
    } else if j < Min(left + 2 * k, count) {
      assert a == Local(TakeRight(left, d, i, j));
      assert PointOk(cmp, count, k, a.next, s, result);
    } else {
      assert a == Local(Copy(left, left)) && d == Min(left + 2 * k, count);
    }
  }

  lemma CompareStep<V(!new)>(cmp: (V, V) -> bool, count: nat, k: nat, stride: nat, own: iset<nat>, l: Point<V>,
      s: seq<V>, result: seq<V>, e: seq<V>, m0: seq<V>, m: seq<V>)
    requires |m0| == |m| == |e| == 2 * count && |s| == |result| == count && k > 0
    requires OwnBlock(own, count, l.left, Min(l.left + 2 * k, count), s, result, e, m0)
    requires l.GotRight? && Share(cmp, count, k, own, l, s, result, e, m0, m)
    ensures Keeps(cmp, count, k, own, l.left, Act(cmp, count, k, stride, l), s, result, e, m0, m)
  {
    assert OwnAt(own, count, l.i, s, result, e, m0) && m[l.i] == s[l.i];
  }

  lemma TakeStep<V(!new)>(cmp: (V, V) -> bool, count: nat, k: nat, stride: nat, own: iset<nat>, l: Point<V>,
      s: seq<V>, result: seq<V>, e: seq<V>, m0: seq<V>, m: seq<V>)
    requires |m0| == |m| == |e| == 2 * count && |s| == |result| == count && k > 0
    requires OwnBlock(own, count, l.left, Min(l.left + 2 * k, count), s, result, e, m0)
    requires (l.TakeLeft? || l.TakeRight?) && Share(cmp, count, k, own, l, s, result, e, m0, m)
    ensures Keeps(cmp, count, k, own, l.left, Act(cmp, count, k, stride, l), s, result, e, m0, m)
  {
    var x := if l.TakeLeft? then l.i else l.j;
    assert OwnAt(own, count, x, s, result, e, m0) && m[x] == s[x];
  }

  lemma PutLeftStep<V(!new)>(cmp: (V, V) -> bool, count: nat, k: nat, stride: nat, own: iset<nat>, l: Point<V>,
      s: seq<V>, result: seq<V>, e: seq<V>, m0: seq<V>, m: seq<V>)
    requires |m0| == |m| == |e| == 2 * count && |s| == |result| == count && k > 0
    requires OwnBlock(own, count, l.left, Min(l.left + 2 * k, count), s, result, e, m0)
    requires l.PutLeft? && Share(cmp, count, k, own, l, s, result, e, m0, m)
    ensures Keeps(cmp, count, k, own, l.left, Act(cmp, count, k, stride, l), s, result, e, m0, m)
  {
    assert OwnAt(own, count, l.m, s, result, e, m0) && result[l.m] == l.v
           && Standing(cmp, count, k, l.left, l.m + 1, l.i + 1, l.j, s, result);
    PutTemp(own, count, l.left, l.m, e, m0, m);
  }

  lemma PutRightStep<V(!new)>(cmp: (V, V) -> bool, count: nat, k: nat, stride: nat, own: iset<nat>, l: Point<V>,
      s: seq<V>, result: seq<V>, e: seq<V>, m0: seq<V>, m: seq<V>)
    requires |m0| == |m| == |e| == 2 * count && |s| == |result| == count && k > 0
    requires OwnBlock(own, count, l.left, Min(l.left + 2 * k, count), s, result, e, m0)
    requires l.PutRight? && Share(cmp, count, k, own, l, s, result, e, m0, m)
    ensures Keeps(cmp, count, k, own, l.left, Act(cmp, count, k, stride, l), s, result, e, m0, m)
  {
    assert OwnAt(own, count, l.m, s, result, e, m0) && result[l.m] == l.v
           && Standing(cmp, count, k, l.left, l.m + 1, l.i, l.j + 1, s, result);
    PutTemp(own, count, l.left, l.m, e, m0, m);
  }

  lemma CopyStep<V(!new)>(cmp: (V, V) -> bool, count: nat, k: nat, stride: nat, own: iset<nat>, l: Point<V>,
      s: seq<V>, result: seq<V>, e: seq<V>, m0: seq<V>, m: seq<V>)
    requires |m0| == |m| == |e| == 2 * count && |s| == |result| == count && k > 0
    requires OwnBlock(own, count, l.left, Min(l.left + 2 * k, count), s, result, e, m0)
    requires (l.Copy? || l.CopyPut?) && l.m < Min(l.left + 2 * k, count)
    requires Share(cmp, count, k, own, l, s, result, e, m0, m)
    ensures Keeps(cmp, count, k, own, l.left, Act(cmp, count, k, stride, l), s, result, e, m0, m)
  {
    assert OwnAt(own, count, l.m, s, result, e, m0);
    if l.CopyPut? {
      PutItem(own, count, l.m, Min(l.left + 2 * k, count), e, m0, m);
    } else {
      assert m[count + l.m] == e[count + l.m];
    }
  }

  lemma StepKeeps<V(!new)>(cmp: (V, V) -> bool, count: nat, k: nat, stride: nat, own: iset<nat>, l: Point<V>,
      s: seq<V>, result: seq<V>, e: seq<V>, m0: seq<V>, m: seq<V>)
    requires |m0| == |m| == |e| == 2 * count && |s| == |result| == count && k > 0
    requires OwnBlock(own, count, l.left, Min(l.left + 2 * k, count), s, result, e, m0)
    requires !l.Seek? && !(l.Copy? && l.m >= Min(l.left + 2 * k, count))
    requires Share(cmp, count, k, own, l, s, result, e, m0, m)
    ensures Keeps(cmp, count, k, own, l.left, Act(cmp, count, k, stride, l), s, result, e, m0, m)
  {
    match l
    case Test(left, _, i, j) =>
      if i < left + k && j < Min(left + 2 * k, count) {
        TestBoth(cmp, count, k, stride, own, l, s, result, e, m0, m);
      } else {
        TestOne(cmp, count, k, stride, own, l, s, result, e, m0, m);
      }
    case GotRight(_, _, _, _, _) => CompareStep(cmp, count, k, stride, own, l, s, result, e, m0, m);
    case TakeLeft(_, _, _, _) => TakeStep(cmp, count, k, stride, own, l, s, result, e, m0, m);
    case TakeRight(_, _, _, _) => TakeStep(cmp, count, k, stride, own, l, s, result, e, m0, m);
    case PutLeft(_, _, _, _, _) => PutLeftStep(cmp, count, k, stride, own, l, s, result, e, m0, m);
    case PutRight(_, _, _, _, _) => PutRightStep(cmp, count, k, stride, own, l, s, result, e, m0, m);
    case Copy(_, _) => CopyStep(cmp, count, k, stride, own, l, s, result, e, m0, m);
    case CopyPut(_, _, _) =>
      assert PointOk(cmp, count, k, l, s, result);
      CopyStep(cmp, count, k, stride, own, l, s, result, e, m0, m);
  }

  /** One step of a thread that stays in its block. */
  lemma BlockStep<V(!new)>(cmp: (V, V) -> bool, count: nat, threads: nat, r: nat, t: nat, l: Point<V>, m0: seq<V>,
      m: seq<V>)
    requires |m0| == |m| == 2 * count && threads > 0
    requires Inv(cmp, count, RunLength(r), threads, t, l, m0, m)
    requires !l.Seek? && !(l.Copy? && l.m >= Min(l.left + 2 * RunLength(r), count))
    ensures ActionOk(SortMerge(cmp, count, threads), MergeOutline(cmp, count, threads), r, t, l, m0, m)
  {
    var k := RunLength(r);
    BlockKeeps(cmp, count, k, threads, t, l, Owned(count, k, threads, t), m0[..count], Pass(cmp, k, m0[..count]),
        Effect(cmp, count, k, m0), m0, m);
    KeepsIsActionOk(cmp, count, threads, r, t, l, m0, m);
  }

  lemma BlockKeeps<V(!new)>(cmp: (V, V) -> bool, count: nat, k: nat, threads: nat, t: nat, l: Point<V>,
      own: iset<nat>, s: seq<V>, result: seq<V>, e: seq<V>, m0: seq<V>, m: seq<V>)
    requires |m0| == |m| == |e| == 2 * count && |s| == |result| == count && k > 0 && threads > 0
    requires own == Owned(count, k, threads, t) && s == m0[..count]
    requires result == Pass(cmp, k, s) && e == Effect(cmp, count, k, m0)
    requires InTurn(k, threads, t, l.left) && Share(cmp, count, k, own, l, s, result, e, m0, m)
    requires !l.Seek? && !(l.Copy? && l.m >= Min(l.left + 2 * k, count))
    ensures Keeps(cmp, count, k, own, l.left, Act(cmp, count, k, Stride(k, threads), l), s, result, e, m0, m)
  {
    InABlock(cmp, count, k, l, s, result);
    BlockIsOwn(cmp, count, k, threads, t, l.left, own, s, result, e, m0);
    StepKeeps(cmp, count, k, Stride(k, threads), own, l, s, result, e, m0, m);
  }

  lemma InABlock<V>(cmp: (V, V) -> bool, count: nat, k: nat, l: Point<V>, s: seq<V>, result: seq<V>)
    requires |s| == |result| == count && PointOk(cmp, count, k, l, s, result) && !l.Seek?
    ensures l.left + k < count
  {
  }

  lemma KeepsIsActionOk<V(!new)>(cmp: (V, V) -> bool, count: nat, threads: nat, r: nat, t: nat, l: Point<V>,
      m0: seq<V>, m: seq<V>)
    requires |m0| == |m| == 2 * count && threads > 0 && InTurn(RunLength(r), threads, t, l.left)
    requires Keeps(cmp, count, RunLength(r), Owned(count, RunLength(r), threads, t), l.left,
                   Act(cmp, count, RunLength(r), Stride(RunLength(r), threads), l),
                   m0[..count], Pass(cmp, RunLength(r), m0[..count]), Effect(cmp, count, RunLength(r), m0), m0, m)
    ensures ActionOk(SortMerge(cmp, count, threads), MergeOutline(cmp, count, threads), r, t, l, m0, m)
  {
    var p, o := SortMerge(cmp, count, threads), MergeOutline(cmp, count, threads);
    assert p.act(r, t, l) == Act(cmp, count, RunLength(r), Stride(RunLength(r), threads), l);
  }

  /** At the start of a block a thread begins to merge it, or ends the round. */
  lemma SeekStep<V(!new)>(cmp: (V, V) -> bool, count: nat, threads: nat, r: nat, t: nat, l: Point<V>, m0: seq<V>,
      m: seq<V>)
    requires |m0| == |m| == 2 * count && threads > 0
    requires Inv(cmp, count, RunLength(r), threads, t, l, m0, m) && l.Seek?
    ensures ActionOk(SortMerge(cmp, count, threads), MergeOutline(cmp, count, threads), r, t, l, m0, m)
  {
    var k, left := RunLength(r), l.left;
    var p, o := SortMerge(cmp, count, threads), MergeOutline(cmp, count, threads);
    assert p.act(r, t, l) == Act(cmp, count, k, Stride(k, threads), l);
    if left + k < count {
      PassRemains(cmp, k, m0[..count], left, Min(left + 2 * k, count));
    } else {
      forall c | 0 <= c < 2 * count && o.owner(r, c) == t ensures m[c] == o.effect(r, m0)[c] {
        assert c in Owned(count, k, threads, t);
        if left <= (if c < count then c else c - count) { NothingLeft(cmp, count, k, left, m0, c); }
      }
    }
  }

  /** Having copied its block back, a thread goes to its next block. */
  lemma NextStep<V(!new)>(cmp: (V, V) -> bool, count: nat, threads: nat, r: nat, t: nat, l: Point<V>, m0: seq<V>,
      m: seq<V>)
    requires |m0| == |m| == 2 * count && threads > 0
    requires Inv(cmp, count, RunLength(r), threads, t, l, m0, m) && l.Copy?
             && l.m >= Min(l.left + 2 * RunLength(r), count)
    ensures ActionOk(SortMerge(cmp, count, threads), MergeOutline(cmp, count, threads), r, t, l, m0, m)
  {
    var k := RunLength(r);
    var next := l.left + Stride(k, threads);
    var p, o := SortMerge(cmp, count, threads), MergeOutline(cmp, count, threads);
    assert p.act(r, t, l) == Act(cmp, count, k, Stride(k, threads), l) == Local(Seek(next));
    MoveOn(count, k, threads, t, l.left, next, Effect(cmp, count, k, m0), m0, m);
  }

  lemma StartInv<V(!new)>(cmp: (V, V) -> bool, count: nat, k: nat, threads: nat, t: nat, m0: seq<V>, m: seq<V>)
    requires |m0| == |m| == 2 * count && k > 0 && t < threads
    requires forall c {:trigger m[c]} :: 0 <= c < 2 * count && c in Owned(count, k, threads, t) ==> m[c] == m0[c]
    ensures Inv(cmp, count, k, threads, t, Seek(2 * k * t), m0, m)
  {
    var left := 2 * k * t;
    MultipleAligned(2 * k, t);
    QuotientUnique(2 * k, t, 0);
    RemainderSmall(t, threads);
    forall c {:trigger m[c]} | 0 <= c < 2 * count && c in Owned(count, k, threads, t)
      ensures !(if c < count then c < left else c - count < left)
    {
      OwnsNothingBefore(k, threads, t, if c < count then c else c - count);
    }
  }

  lemma OwnsNothingBefore(k: nat, threads: nat, t: nat, x: nat)
    requires k > 0 && t < threads && Remainder(Quotient(x, 2 * k), threads) == t
    ensures 2 * k * t <= x
  {
    var q := Quotient(x, 2 * k);
    QuotientRemainder(x, 2 * k);
    ChunkEnds(2 * k, q, Remainder(x, 2 * k), t);
    if q < t { RemainderSmall(q, threads); }
  }

  lemma RemainderSmall(q: nat, n: nat)
    requires q < n
    ensures Remainder(q, n) == q
  {
  }

  lemma MergeSound<V(!new)>(cmp: (V, V) -> bool, count: nat, threads: nat)
    requires threads > 0
    ensures Sound(SortMerge(cmp, count, threads), MergeOutline(cmp, count, threads))
  {
    MergeStartOk(cmp, count, threads);
    MergeStableOk(cmp, count, threads);
    MergeStepOk(cmp, count, threads);
  }

  lemma MergeStartOk<V(!new)>(cmp: (V, V) -> bool, count: nat, threads: nat)
    requires threads > 0
    ensures StartOk(SortMerge(cmp, count, threads), MergeOutline(cmp, count, threads))
  {
    var p, o := SortMerge(cmp, count, threads), MergeOutline(cmp, count, threads);
    forall r, t, m0: seq<V>, m: seq<V>
      | 0 <= r < p.rounds && 0 <= t < threads && |m0| == |m| == 2 * count && Agree(p, o, r, t, m, m0)
      ensures o.inv(r, t, p.start(r, t), m0, m)
    {
      assert forall c :: 0 <= c < 2 * count && c in Owned(count, RunLength(r), threads, t) ==> o.owner(r, c) == t;
      StartInv(cmp, count, RunLength(r), threads, t, m0, m);
    }
  }

  lemma MergeStableOk<V(!new)>(cmp: (V, V) -> bool, count: nat, threads: nat)
    requires threads > 0
    ensures StableOk(SortMerge(cmp, count, threads), MergeOutline(cmp, count, threads))
  {
    var p, o := SortMerge(cmp, count, threads), MergeOutline(cmp, count, threads);
    forall r, t, l, m0: seq<V>, m: seq<V>, m': seq<V>
      | 0 <= r < p.rounds && 0 <= t < threads && |m0| == |m| == |m'| == 2 * count
        && o.inv(r, t, l, m0, m) && Agree(p, o, r, t, m, m')
      ensures o.inv(r, t, l, m0, m')
    {
      assert forall c :: 0 <= c < 2 * count && c in Owned(count, RunLength(r), threads, t) ==> o.owner(r, c) == t;
      InvStable(cmp, count, RunLength(r), threads, t, l, m0, m, m');
    }
  }

  lemma MergeStepOk<V(!new)>(cmp: (V, V) -> bool, count: nat, threads: nat)
    requires threads > 0
    ensures StepOk(SortMerge(cmp, count, threads), MergeOutline(cmp, count, threads))
  {
    var p, o := SortMerge(cmp, count, threads), MergeOutline(cmp, count, threads);
    forall r, t, l, m0: seq<V>, m: seq<V>
      | 0 <= r < p.rounds && 0 <= t < threads && |m0| == |m| == 2 * count && o.inv(r, t, l, m0, m)
      ensures ActionOk(p, o, r, t, l, m0, m)
    {
      if l.Seek? { SeekStep(cmp, count, threads, r, t, l, m0, m); }
      else if l.Copy? && l.m >= Min(l.left + 2 * RunLength(r), count) { NextStep(cmp, count, threads, r, t, l, m0, m); }
      else { BlockStep(cmp, count, threads, r, t, l, m0, m); }
    }
  }

  lemma InvStable<V(!new)>(cmp: (V, V) -> bool, count: nat, k: nat, threads: nat, t: nat, l: Point<V>, m0: seq<V>,
      m: seq<V>, m': seq<V>)
    requires |m0| == |m| == |m'| == 2 * count && k > 0 && threads > 0 && Inv(cmp, count, k, threads, t, l, m0, m)
    requires forall c {:trigger m'[c]} :: 0 <= c < 2 * count && c in Owned(count, k, threads, t) ==> m'[c] == m[c]
    ensures Inv(cmp, count, k, threads, t, l, m0, m')
  {
  }

  // ----- the rounds in order -----

  lemma EffectIsPass<V>(cmp: (V, V) -> bool, count: nat, k: nat, mem: seq<V>, k': nat, after: seq<V>, last: seq<V>)
    requires |mem| == 2 * count && 0 < k < count && after == Effect(cmp, count, k, mem)
    requires Passes(cmp, k, mem[..count]) == last && k' == 2 * k
    ensures Passes(cmp, k', after[..count]) == last
  {
    assert after[..count] == Pass(cmp, k, mem[..count]);
  }

  lemma {:induction false} RoundsLeft(count: nat, r: nat)
    requires r <= RoundsFrom(1, count)
    ensures RoundsFrom(1, count) == r + RoundsFrom(RunLength(r), count)
    ensures r < RoundsFrom(1, count) ==> RunLength(r) < count
  {
    if r > 0 { RoundsLeft(count, r - 1); }
  }

  /** After r rounds the array is what the passes for 1, 2, ..., up to the current run length leave. */
  lemma {:induction false} RoundsArePasses<V>(cmp: (V, V) -> bool, count: nat, effect: (nat, seq<V>) -> seq<V>,
      r: nat, k: nat,
      m0: seq<V>, m: seq<V>, last: seq<V>)
    requires |m0| == 2 * count && r <= RoundsFrom(1, count) && k == RunLength(r) && m == Iterate(effect, r, m0)
    requires forall i: nat, m: seq<V> :: effect(i, m) == Effect(cmp, count, RunLength(i), m)
    requires Passes(cmp, 1, m0[..count]) == last
    ensures |m| == 2 * count && Passes(cmp, k, m[..count]) == last
  {
    if r > 0 {
      RoundsLeft(count, r - 1);
      RoundsArePasses(cmp, count, effect, r - 1, RunLength(r - 1), m0, Iterate(effect, r - 1, m0), last);
      EffectIsPass(cmp, count, RunLength(r - 1), Iterate(effect, r - 1, m0), k, m, last);
    }
  }

  /**
   Every interleaving of the threads ends in the same array as the sequential merge sort: the
   stably sorted one.  It is there as soon as one thread returns.
   */
  lemma MergeThreadsSort<V(!new)>(cmp: (V, V) -> bool, threads: nat, items: seq<V>, temp: seq<V>, schedule: seq<nat>,
      t: nat)
    requires StrictWeak(cmp) && t < threads && |temp| == |items|
    ensures var p := SortMerge(cmp, |items|, threads);
            var s := Exec(p, Initial(p, items + temp), schedule);
            |s.threads| == threads &&
            (Exited(p, s.threads[t]) ==>
               && |s.mem| == 2 * |items|
               && s.mem[..|items|] == Passes(cmp, 1, items)
               && StablySorted(cmp, items, s.mem[..|items|]))
  {
    var count := |items|;
    var p, o := SortMerge(cmp, count, threads), MergeOutline(cmp, count, threads);
    MergeSound(cmp, count, threads);
    Deterministic(p, o, items + temp, schedule, t);
    RoundsLeft(count, p.rounds);
    assert (items + temp)[..count] == items;
    RoundsArePasses(cmp, count, o.effect, p.rounds, RunLength(p.rounds), items + temp,
        Iterate(o.effect, p.rounds, items + temp),
                    Passes(cmp, 1, items));
    MergeSortStable(cmp, items);
  }

  /** No interleaving has two threads about to access the same cell of the array or of the buffer. */
  lemma MergeRaceFree<V(!new)>(cmp: (V, V) -> bool, threads: nat, items: seq<V>, temp: seq<V>, schedule: seq<nat>,
      t: nat, c: nat)
    requires t < threads && |temp| == |items|
    ensures NoRace(SortMerge(cmp, |items|, threads), items + temp, schedule, t, c)
  {
    MergeSound(cmp, |items|, threads);
    RaceFree(SortMerge(cmp, |items|, threads), MergeOutline(cmp, |items|, threads), items + temp, schedule, t, c);
  }
}
