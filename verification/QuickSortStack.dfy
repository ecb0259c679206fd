/**
 The iterative quicksort: Lomuto's partition, and a stack of 32 slots for the ranges still to be sorted.
 */
module QuickSortStack {
  import opened Order
  import opened Windows
  import opened QuickSort
  import opened StackDepth

  // ----- the partition -----

  /** The elements at l, ..., r must all come before p. */
  ghost predicate Below<T>(cmp: (T, T) -> bool, s: seq<T>, l: int, r: int, p: T)
    requires 0 <= l && r < |s|
  {
    forall x :: l <= x <= r ==> cmp(s[x], p)
  }

  /** The elements after l and before i are split at mid by the pivot, which is at l. */
  ghost predicate Split<T>(cmp: (T, T) -> bool, s: seq<T>, l: int, i: int, mid: int)
    requires 0 <= l <= mid < i <= |s|
  {
    Below(cmp, s, l + 1, mid, s[l]) && NotBelow(cmp, s, mid + 1, i - 1, s[l])
  }

  /** The elements at l, ..., r. */
  function Window<T>(s: seq<T>, l: int, r: int): seq<T>
    requires 0 <= l <= r + 1 <= |s|
  {
    s[l..r + 1]
  }

  lemma WindowExchanged<T>(s: seq<T>, t: seq<T>, l: int, r: int, i: int, j: int)
    requires 0 <= l <= i <= j <= r < |s| && t == s[i := s[j]][j := s[i]]
    ensures Window(t, l, r) == Exchanged(Window(s, l, r), i - l, j - l)
  {
  }

  /** The loop body: the element at i goes to its side. */
  method Advance<T(!new)>(items: array<T>, l: int, r: int, i: int, mid0: int, cmp: (T, T) -> bool,
      ghost was: seq<T>) returns (mid: int)
    requires 0 <= l <= mid0 < i <= r < items.Length
    requires Shuffled(was, items[..], l, r) && Split(cmp, items[..], l, i, mid0)
    modifies items
    ensures l <= mid <= i && Shuffled(was, items[..], l, r) && Split(cmp, items[..], l, i + 1, mid)
    ensures Scanned(cmp, Window(items[..], l, r), i + 1 - l, mid - l) ==
              Scanned(cmp, Window(old(items[..]), l, r), i - l, mid0 - l)
  {
    mid := mid0;
    ghost var before := items[..];
    if cmp(items[i], items[l]) {
      mid := mid + 1;
      Swap(items, mid, i);
      SwappedWithin(was, before, items[..], l, r, mid, i);
      Grown(cmp, before, items[..], l, i, mid0);
    }
    ScanStep(cmp, before, items[..], l, r, i, mid0);
  }

  /** One round of the loop, in terms of the window. */
  lemma ScanStep<T>(cmp: (T, T) -> bool, s: seq<T>, t: seq<T>, l: int, r: int, i: int, mid: int)
    requires 0 <= l <= mid < i <= r < |s|
    requires t == if cmp(s[i], s[l]) then s[mid + 1 := s[i]][i := s[mid + 1]] else s
    ensures Scanned(cmp, Window(t, l, r), i + 1 - l, (if cmp(s[i], s[l]) then mid + 1 else mid) - l) ==
              Scanned(cmp, Window(s, l, r), i - l, mid - l)
  {
    if cmp(s[i], s[l]) { WindowExchanged(s, t, l, r, mid + 1, i); }
  }

  /** The loop of sort_quick_partition, with the pivot at l. */
  method SplitWindow<T(!new)>(items: array<T>, l: int, r: int, cmp: (T, T) -> bool,
      ghost was: seq<T>) returns (mid: int)
    requires 0 <= l < r < items.Length && Shuffled(was, items[..], l, r)
    modifies items
    ensures l <= mid <= r && Shuffled(was, items[..], l, r) && Split(cmp, items[..], l, r + 1, mid)
    ensures Scanned(cmp, Window(old(items[..]), l, r), 1, 0) == (Window(items[..], l, r), mid - l)
  {
    ghost var first := Window(items[..], l, r);
    mid := l;
    var i := l + 1;
    while i <= r
      invariant l <= mid < i <= r + 1
      invariant Shuffled(was, items[..], l, r) && Split(cmp, items[..], l, i, mid)
      invariant Scanned(cmp, Window(items[..], l, r), i - l, mid - l) == Scanned(cmp, first, 1, 0)
    {
      mid := Advance(items, l, r, i, mid, cmp, was);
      i := i + 1;
    }
  }

  /** sort_quick_partition. */
  method PartitionLomuto<T(!new)>(items: array<T>, l: int, r: int, cmp: (T, T) -> bool) returns (mid: int)
    requires Asymmetric(cmp) && 0 <= l < r < items.Length
    modifies items
    ensures l <= mid <= r
    ensures Shuffled(old(items[..]), items[..], l, r)
    ensures Below(cmp, items[..], l, mid - 1, items[mid]) && NotBelow(cmp, items[..], mid + 1, r, items[mid])
    ensures Partitioned(cmp, Window(old(items[..]), l, r)) == (Window(items[..], l, r), mid - l)
  {
    ghost var was := items[..];
    mid := (l + r) / 2;
    Swap(items, l, mid);
    ghost var first := items[..];
    SwappedWithin(was, was, first, l, r, l, mid);
    mid := SplitWindow(items, l, r, cmp, was);
    ghost var before := items[..];
    Swap(items, l, mid);
    SwappedWithin(was, before, items[..], l, r, l, mid);
    PivotBetween(cmp, before, items[..], l, r, mid);
    PartitionIs(cmp, was, first, before, items[..], l, r, mid);
  }

  /** The three steps of a partition. */
  lemma PartitionIs<T>(cmp: (T, T) -> bool, was: seq<T>, first: seq<T>, before: seq<T>, after: seq<T>,
      l: int, r: int, mid: int)
    requires 0 <= l < r < |was| == |before| && l <= mid <= r
    requires first == was[l := was[(l + r) / 2]][(l + r) / 2 := was[l]]
    requires Scanned(cmp, Window(first, l, r), 1, 0) == (Window(before, l, r), mid - l)
    requires after == before[l := before[mid]][mid := before[l]]
    ensures Partitioned(cmp, Window(was, l, r)) == (Window(after, l, r), mid - l)
  {
    assert (l + r) / 2 - l == Middle(r + 1 - l);
    WindowExchanged(was, first, l, r, l, (l + r) / 2);
    WindowExchanged(before, after, l, r, l, mid);
  }

  lemma Grown<T>(cmp: (T, T) -> bool, s: seq<T>, t: seq<T>, l: int, i: int, mid: int)
    requires 0 <= l <= mid < i < |s| && Split(cmp, s, l, i, mid) && cmp(s[i], s[l])
    requires t == s[mid + 1 := s[i]][i := s[mid + 1]]
    ensures Split(cmp, t, l, i + 1, mid + 1)
  {
  }

  lemma PivotBetween<T>(cmp: (T, T) -> bool, s: seq<T>, t: seq<T>, l: int, r: int, mid: int)
    requires 0 <= l <= mid <= r < |s| && t == s[l := s[mid]][mid := s[l]]
    requires r + 1 <= |s| && Split(cmp, s, l, r + 1, mid)
    ensures Below(cmp, t, l, mid - 1, t[mid]) && NotBelow(cmp, t, mid + 1, r, t[mid])
  {
  }

  // ----- the ranges still to be sorted -----

  /** owner names the range an element is in: exactly the elements lo, ..., hi are in range p. */
  ghost predicate Held(owner: seq<int>, p: int, lo: int, hi: int) {
    && 0 <= lo <= hi + 1 <= |owner|
    && forall x {:trigger owner[x]} :: 0 <= x < |owner| ==> (owner[x] == p <==> lo <= x <= hi)
  }

  /** Two elements that are not in the same range, or are in none, are in order. */
  ghost predicate Settled<T>(cmp: (T, T) -> bool, s: seq<T>, owner: seq<int>)
    requires |s| == |owner|
  {
    forall x: nat, y: nat :: x < y < |s| ==> PairSettled(cmp, s, owner, x, y)
  }

  ghost predicate PairSettled<T>(cmp: (T, T) -> bool, s: seq<T>, owner: seq<int>, x: nat, y: nat)
    requires x < y < |s| == |owner|
  {
    owner[x] < 0 || owner[x] != owner[y] ==> !cmp(s[y], s[x])
  }

  /** A range held on the stack. */
  datatype Range = Range(lo: int, hi: int)

  ghost predicate Pending(owner: seq<int>, ranges: seq<Range>, l: int, r: int) {
    && Held(owner, |ranges|, l, r)
    && (forall p {:trigger ranges[p]} :: 0 <= p < |ranges| ==>
          Held(owner, p, ranges[p].lo, ranges[p].hi))
    && (forall x {:trigger owner[x]} :: 0 <= x < |owner| ==> owner[x] <= |ranges|)
  }

  /** The elements that are in some range. */
  ghost function Unsettled(owner: seq<int>): set<int> {
    set x | 0 <= x < |owner| && owner[x] >= 0
  }

  /** The range [l..r], which was range d, is sorted. */
  ghost function Finished(owner: seq<int>, d: int): seq<int> {
    seq(|owner|, x requires 0 <= x < |owner| => if owner[x] == d then -1 else owner[x])
  }

  /** Of range d, the element at mid is in its place, [a..b] is to be sorted next, and the rest later. */
  ghost function Divided(owner: seq<int>, d: int, mid: int, a: int, b: int): seq<int> {
    seq(|owner|, x requires 0 <= x < |owner| => if x == mid then -1 else if a <= x <= b then d + 1 else owner[x])
  }

  lemma SettledStill<T>(cmp: (T, T) -> bool, s: seq<T>, t: seq<T>, owner: seq<int>, d: nat, l: int, r: int)
    requires |s| == |owner| && Settled(cmp, s, owner) && Held(owner, d, l, r) && Shuffled(s, t, l, r)
    ensures Settled(cmp, t, owner)
  {
    forall x: nat, y: nat | x < y < |t| ensures PairSettled(cmp, t, owner, x, y) {
      if owner[x] < 0 || owner[x] != owner[y] {
        var x', y' := x, y;
        if l <= x <= r { x' := Origin(s, t, l, r, x); }
        if l <= y <= r { y' := Origin(s, t, l, r, y); }
        assert owner[x'] == owner[x] && owner[y'] == owner[y];
        assert PairSettled(cmp, s, owner, x', y');
      }
    }
  }

  lemma SettledWhenSorted<T>(cmp: (T, T) -> bool, t: seq<T>, owner: seq<int>, d: nat, l: int, r: int)
    requires |t| == |owner| && Settled(cmp, t, owner) && Held(owner, d, l, r) && SortedWindow(cmp, t, l, r)
    ensures Settled(cmp, t, Finished(owner, d))
  {
    forall x: nat, y: nat | x < y < |t| ensures PairSettled(cmp, t, Finished(owner, d), x, y) {
      assert PairSettled(cmp, t, owner, x, y);
    }
  }

  lemma SettledWhenSplit<T(!new)>(cmp: (T, T) -> bool, t: seq<T>, owner: seq<int>, d: nat, l: int, r: int, mid: int,
      a: int, b: int)
    requires StrictWeak(cmp) && |t| == |owner| && Settled(cmp, t, owner) && Held(owner, d, l, r) && l <= mid <= r
    requires Below(cmp, t, l, mid - 1, t[mid]) && NotBelow(cmp, t, mid + 1, r, t[mid])
    requires (a == l && b == mid - 1) || (a == mid + 1 && b == r)
    ensures Settled(cmp, t, Divided(owner, d, mid, a, b))
  {
    forall x: nat, y: nat | x < y < |t| ensures PairSettled(cmp, t, Divided(owner, d, mid, a, b), x, y) {
      assert PairSettled(cmp, t, owner, x, y);
      if l <= x < mid < y <= r { assert cmp(t[x], t[mid]) && !cmp(t[y], t[mid]); }
    }
  }

  lemma PendingPopped(owner: seq<int>, ranges: seq<Range>, l: int, r: int)
    requires Pending(owner, ranges, l, r) && |ranges| > 0
    ensures Pending(Finished(owner, |ranges|), ranges[..|ranges| - 1], ranges[|ranges| - 1].lo, ranges[|ranges| - 1].hi)
    ensures Unsettled(Finished(owner, |ranges|)) <= Unsettled(owner)
  {
  }

  /** What remains of range d after a partition at mid, with the smaller side next. */
  ghost function Smaller(owner: seq<int>, d: int, l: int, r: int, mid: int): seq<int> {
    if mid < (l + r) / 2 then Divided(owner, d, mid, l, mid - 1) else Divided(owner, d, mid, mid + 1, r)
  }

  lemma DividedElsewhere(owner: seq<int>, d: int, l: int, r: int, mid: int, a: int, b: int, p: int, lo: int, hi: int)
    requires Held(owner, d, l, r) && l <= mid <= r && l <= a && b <= r && Held(owner, p, lo, hi) && 0 <= p < d
    ensures Held(Divided(owner, d, mid, a, b), p, lo, hi)
  {
    var after := Divided(owner, d, mid, a, b);
    forall x {:trigger after[x]} | 0 <= x < |after| ensures after[x] == p <==> lo <= x <= hi {
      assert owner[x] == d <==> l <= x <= r;
    }
  }

  lemma PendingPushed(owner: seq<int>, ranges: seq<Range>, l: int, r: int, mid: int, kept: Range, a: int, b: int)
    requires Pending(owner, ranges, l, r) && l <= mid <= r
    requires if mid < (l + r) / 2 then kept == Range(mid + 1, r) && a == l && b == mid - 1
             else kept == Range(l, mid - 1) && a == mid + 1 && b == r
    ensures Pending(Smaller(owner, |ranges|, l, r, mid), ranges + [kept], a, b)
    ensures Unsettled(Smaller(owner, |ranges|, l, r, mid)) < Unsettled(owner)
  {
    var d, more := |ranges|, ranges + [kept];
    var after := Divided(owner, d, mid, a, b);
    assert mid in Unsettled(owner) && mid !in Unsettled(after);
    forall p {:trigger more[p]} | 0 <= p <= d
      ensures Held(after, p, more[p].lo, more[p].hi)
    {
      if p < d {
        assert more[p] == ranges[p];
        DividedElsewhere(owner, d, l, r, mid, a, b, p, ranges[p].lo, ranges[p].hi);
      }
    }
  }

  /** The slots of the stack that are in use hold the ranges. */
  ghost predicate OnStack(stack: seq<int>, ranges: seq<Range>) {
    |stack| == 32 && |ranges| <= 16
    && forall p {:trigger ranges[p]} :: 0 <= p < |ranges| ==>
         stack[2 * p] == ranges[p].lo && stack[2 * p + 1] == ranges[p].hi
  }

  method Push(stack: array<int>, space: int, range: Range, ghost ranges: seq<Range>)
    requires OnStack(stack[..], ranges) && space == 2 * |ranges| < 32
    modifies stack
    ensures OnStack(stack[..], ranges + [range])
  {
    stack[space] := range.lo;
    stack[space + 1] := range.hi;
  }

  method Pop(stack: array<int>, space: int, ghost ranges: seq<Range>) returns (range: Range)
    requires OnStack(stack[..], ranges) && space + 2 == 2 * |ranges| && |ranges| > 0
    ensures range == ranges[|ranges| - 1] && OnStack(stack[..], ranges[..|ranges| - 1])
  {
    assert stack[..][2 * (|ranges| - 1)] == ranges[|ranges| - 1].lo;
    range := Range(stack[space], stack[space + 1]);
  }

  /** The array s, made from `was`, is sorted but for the ranges on the stack and the range [l..r]. */
  ghost predicate Progress<T>(cmp: (T, T) -> bool, was: seq<T>, s: seq<T>, owner: seq<int>, ranges: seq<Range>,
      l: int, r: int) {
    |owner| == |s| && Pending(owner, ranges, l, r) && Shuffled(was, s, 0, |s| - 1) && Settled(cmp, s, owner)
  }

  /** A range with d ranges below it on the stack needs no more pairs than there is room for. */
  ghost predicate Fits<T>(cmp: (T, T) -> bool, s: seq<T>, range: Range, d: nat) {
    0 <= range.lo <= range.hi + 1 <= |s| && d + Pairs(cmp, Window(s, range.lo, range.hi)) <= 16
  }

  ghost predicate WaitingFit<T>(cmp: (T, T) -> bool, s: seq<T>, ranges: seq<Range>) {
    forall p {:trigger ranges[p]} :: 0 <= p < |ranges| ==> Fits(cmp, s, ranges[p], p)
  }

  ghost predicate AllFit<T>(cmp: (T, T) -> bool, s: seq<T>, ranges: seq<Range>, l: int, r: int) {
    Fits(cmp, s, Range(l, r), |ranges|) && WaitingFit(cmp, s, ranges)
  }

  /** Rearranging one range leaves what the others need alone. */
  lemma OthersFit<T>(cmp: (T, T) -> bool, s: seq<T>, t: seq<T>, owner: seq<int>, ranges: seq<Range>,
      l: int, r: int, p: nat)
    requires |owner| == |s| && Pending(owner, ranges, l, r) && Shuffled(s, t, l, r) && p < |ranges|
    ensures Fits(cmp, s, ranges[p], p) <==> Fits(cmp, t, ranges[p], p)
  {
    var range := ranges[p];
    assert Window(s, range.lo, range.hi) == Window(t, range.lo, range.hi) by {
      forall x | range.lo <= x <= range.hi ensures t[x] == s[x] { assert owner[x] == p; }
    }
  }

  lemma WaitingStillFit<T>(cmp: (T, T) -> bool, s: seq<T>, t: seq<T>, owner: seq<int>, ranges: seq<Range>,
      l: int, r: int)
    requires |owner| == |s| && Pending(owner, ranges, l, r) && Shuffled(s, t, l, r)
    ensures WaitingFit(cmp, s, ranges) <==> WaitingFit(cmp, t, ranges)
  {
    forall p: nat | p < |ranges| ensures Fits(cmp, s, ranges[p], p) <==> Fits(cmp, t, ranges[p], p) {
      OthersFit(cmp, s, t, owner, ranges, l, r, p);
    }
  }

  lemma OneMoreWaiting<T>(cmp: (T, T) -> bool, s: seq<T>, ranges: seq<Range>, range: Range)
    ensures WaitingFit(cmp, s, ranges + [range]) <==> WaitingFit(cmp, s, ranges) && Fits(cmp, s, range, |ranges|)
  {
    var more := ranges + [range];
    assert forall p {:trigger ranges[p]} :: 0 <= p < |ranges| ==> more[p] == ranges[p];
    assert more[|ranges|] == range;
  }

  lemma NextWaiting<T>(cmp: (T, T) -> bool, s: seq<T>, ranges: seq<Range>)
    requires ranges != []
    ensures var (top, rest) := (ranges[|ranges| - 1], ranges[..|ranges| - 1]);
            WaitingFit(cmp, s, ranges) <==> AllFit(cmp, s, rest, top.lo, top.hi)
  {
    var top, rest := ranges[|ranges| - 1], ranges[..|ranges| - 1];
    OneMoreWaiting(cmp, s, rest, top);
    assert ranges == rest + [top] && top == Range(top.lo, top.hi);
  }

  /** A short range fits wherever it is. */
  lemma ShortFits<T>(cmp: (T, T) -> bool, s: seq<T>, range: Range, d: nat)
    requires 0 <= range.lo <= range.hi + 1 <= |s| && range.hi - range.lo < SHORT && d <= 16
    ensures Fits(cmp, s, range, d)
  {
  }

  /** On top of a full stack a long range does not fit. */
  lemma LongOverflows<T>(cmp: (T, T) -> bool, s: seq<T>, range: Range)
    requires range.hi - range.lo >= SHORT
    ensures !Fits(cmp, s, range, 16)
  {
  }

  /** After a short range, all that is left is what is on the stack. */
  lemma FitAfterShort<T>(cmp: (T, T) -> bool, s: seq<T>, t: seq<T>, owner: seq<int>, ranges: seq<Range>, l: int, r: int)
    requires |owner| == |s| && Pending(owner, ranges, l, r) && Shuffled(s, t, l, r)
    requires r - l < SHORT && 0 < |ranges| <= 16
    ensures var (top, rest) := (ranges[|ranges| - 1], ranges[..|ranges| - 1]);
            AllFit(cmp, s, ranges, l, r) <==> AllFit(cmp, t, rest, top.lo, top.hi)
  {
    var top, rest := ranges[|ranges| - 1], ranges[..|ranges| - 1];
    ShortFits(cmp, s, Range(l, r), |ranges|);
    WaitingStillFit(cmp, s, t, owner, ranges, l, r);
    NextWaiting(cmp, t, ranges);
  }

  /** What a partition leaves has to fit exactly if the range did. */
  lemma HalvesFit<T>(cmp: (T, T) -> bool, s: seq<T>, t: seq<T>, l: int, r: int, mid: int, kept: Range, next: Range,
      d: nat)
    requires 0 <= l && r < |s| == |t| && r - l >= SHORT && l <= mid <= r
    requires Partitioned(cmp, Window(s, l, r)) == (Window(t, l, r), mid - l)
    requires if mid < (l + r) / 2 then kept == Range(mid + 1, r) && next == Range(l, mid - 1)
             else kept == Range(l, mid - 1) && next == Range(mid + 1, r)
    ensures Fits(cmp, s, Range(l, r), d) <==> Fits(cmp, t, next, d + 1) && Fits(cmp, t, kept, d)
  {
    var w := Window(s, l, r);
    assert Middle(|w|) == (l + r) / 2 - l;
    assert NextWindow(cmp, w) == Window(t, next.lo, next.hi) && KeptWindow(cmp, w) == Window(t, kept.lo, kept.hi);
  }

  lemma FitAfterPartition<T>(cmp: (T, T) -> bool, s: seq<T>, t: seq<T>, owner: seq<int>, ranges: seq<Range>,
      l: int, r: int, mid: int, kept: Range, next: Range)
    requires |owner| == |s| && Pending(owner, ranges, l, r) && Shuffled(s, t, l, r) && r - l >= SHORT && l <= mid <= r
    requires Partitioned(cmp, Window(s, l, r)) == (Window(t, l, r), mid - l)
    requires if mid < (l + r) / 2 then kept == Range(mid + 1, r) && next == Range(l, mid - 1)
             else kept == Range(l, mid - 1) && next == Range(mid + 1, r)
    ensures AllFit(cmp, s, ranges, l, r) <==> AllFit(cmp, t, ranges + [kept], next.lo, next.hi)
  {
    HalvesFit(cmp, s, t, l, r, mid, kept, next, |ranges|);
    WaitingStillFit(cmp, s, t, owner, ranges, l, r);
    OneMoreWaiting(cmp, t, ranges, kept);
    assert next == Range(next.lo, next.hi);
  }

  /** The array after a partition of the current range, with one side of it next. */
  lemma ProgressAfterPartition<T(!new)>(cmp: (T, T) -> bool, was: seq<T>, s: seq<T>, t: seq<T>, owner: seq<int>,
      ranges: seq<Range>, l: int, r: int, mid: int, kept: Range, next: Range)
    requires StrictWeak(cmp) && Progress(cmp, was, s, owner, ranges, l, r) && Shuffled(s, t, l, r) && l <= mid <= r
    requires Below(cmp, t, l, mid - 1, t[mid]) && NotBelow(cmp, t, mid + 1, r, t[mid])
    requires if mid < (l + r) / 2 then kept == Range(mid + 1, r) && next == Range(l, mid - 1)
             else kept == Range(l, mid - 1) && next == Range(mid + 1, r)
    ensures Progress(cmp, was, t, Smaller(owner, |ranges|, l, r, mid), ranges + [kept], next.lo, next.hi)
    ensures Unsettled(Smaller(owner, |ranges|, l, r, mid)) < Unsettled(owner)
  {
    ShuffledWithin(was, s, t, l, r, 0, |s| - 1);
    SettledStill(cmp, s, t, owner, |ranges|, l, r);
    SettledWhenSplit(cmp, t, owner, |ranges|, l, r, mid, next.lo, next.hi);
    PendingPushed(owner, ranges, l, r, mid, kept, next.lo, next.hi);
  }

  /** A short range is sorted in place; then the last one on the stack is next. */
  method SortShort<T(!new)>(items: array<T>, l: int, r: int, cmp: (T, T) -> bool, ghost was: seq<T>,
      ghost owner: seq<int>, ghost ranges: seq<Range>)
    returns (ghost owner': seq<int>)
    requires StrictWeak(cmp) && Progress(cmp, was, items[..], owner, ranges, l, r)
    modifies items
    ensures Shuffled(old(items[..]), items[..], l, r)
    ensures ranges == [] ==> SortedPermutation(cmp, was, items[..])
    ensures ranges != [] ==>
              var (top, rest) := (ranges[|ranges| - 1], ranges[..|ranges| - 1]);
              Progress(cmp, was, items[..], owner', rest, top.lo, top.hi) && Unsettled(owner') <= Unsettled(owner)
  {
    owner' := Finished(owner, |ranges|);
    ghost var before := items[..];
    SortInsertion(items, l, r - l + 1, cmp);
    ShuffledWithin(was, before, items[..], l, r, 0, items.Length - 1);
    SettledStill(cmp, before, items[..], owner, |ranges|, l, r);
    SettledWhenSorted(cmp, items[..], owner, |ranges|, l, r);
    if ranges == [] {
      AllSettled(cmp, was, items[..], owner, l, r);
    } else {
      PendingPopped(owner, ranges, l, r);
    }
  }

  /** A long range is partitioned: one side is next, and the other one is kept for later. */
  method Divide<T(!new)>(items: array<T>, l: int, r: int, cmp: (T, T) -> bool,
      ghost was: seq<T>, ghost owner: seq<int>, ghost ranges: seq<Range>)
    returns (kept: Range, next: Range, ghost owner': seq<int>)
    requires StrictWeak(cmp) && r - l >= SHORT && Progress(cmp, was, items[..], owner, ranges, l, r)
    modifies items
    ensures Progress(cmp, was, items[..], owner', ranges + [kept], next.lo, next.hi)
            && Unsettled(owner') < Unsettled(owner)
    ensures AllFit(cmp, old(items[..]), ranges, l, r) <==> AllFit(cmp, items[..], ranges + [kept], next.lo, next.hi)
    ensures multiset(items[..]) == multiset(old(items[..]))
  {
    ghost var before := items[..];
    var mid := PartitionLomuto(items, l, r, cmp);
    if mid < (l + r) / 2 {
      kept, next := Range(mid + 1, r), Range(l, mid - 1);
    } else {
      kept, next := Range(l, mid - 1), Range(mid + 1, r);
    }
    ProgressAfterPartition(cmp, was, before, items[..], owner, ranges, l, r, mid, kept, next);
    FitAfterPartition(cmp, before, items[..], owner, ranges, l, r, mid, kept, next);
    owner' := Smaller(owner, |ranges|, l, r, mid);
  }

  /** What every turn of the loop keeps. */
  ghost predicate InLoop<T>(cmp: (T, T) -> bool, was: seq<T>, s: seq<T>, stack: seq<int>, space: int, owner: seq<int>,
      ranges: seq<Range>, l: int, r: int) {
    && space == 2 * |ranges| && OnStack(stack, ranges) && Progress(cmp, was, s, owner, ranges, l, r)
    && (AllFit(cmp, s, ranges, l, r) <==> Pairs(cmp, was) <= 16)
  }

  /** A turn of the loop for a short range when there is another one on the stack. */
  method TurnShort<T(!new)>(items: array<T>, stack: array<int>, space: int, l: int, r: int, cmp: (T, T) -> bool,
      ghost was: seq<T>, ghost owner: seq<int>, ghost ranges: seq<Range>)
    returns (next: Range, ghost owner': seq<int>, ghost ranges': seq<Range>)
    requires StrictWeak(cmp) && (stack as object) != items && r - l < 32 && space > 0
    requires InLoop(cmp, was, items[..], stack[..], space, owner, ranges, l, r)
    modifies items
    ensures InLoop(cmp, was, items[..], stack[..], space - 2, owner', ranges', next.lo, next.hi)
    ensures Unsettled(owner') <= Unsettled(owner) && |ranges'| < |ranges|
  {
    ghost var before := items[..];
    owner' := SortShort(items, l, r, cmp, was, owner, ranges);
    FitAfterShort(cmp, before, items[..], owner, ranges, l, r);
    next := Pop(stack, space - 2, ranges);
    ranges' := ranges[..|ranges| - 1];
  }

  /** A turn of the loop for a long range; `overflow` models a store beyond the stack's last slot. */
  method TurnLong<T(!new)>(items: array<T>, stack: array<int>, space: int, l: int, r: int, cmp: (T, T) -> bool,
      ghost was: seq<T>, ghost owner: seq<int>, ghost ranges: seq<Range>)
    returns (overflow: bool, next: Range, ghost owner': seq<int>, ghost ranges': seq<Range>)
    requires StrictWeak(cmp) && (stack as object) != items && r - l >= 32
    requires InLoop(cmp, was, items[..], stack[..], space, owner, ranges, l, r)
    modifies items, stack
    ensures overflow ==> Pairs(cmp, was) > 16 && multiset(items[..]) == multiset(was)
    ensures !overflow ==> InLoop(cmp, was, items[..], stack[..], space + 2, owner', ranges', next.lo, next.hi)
                          && Unsettled(owner') < Unsettled(owner)
  {
    if |ranges| == 16 { LongOverflows(cmp, items[..], Range(l, r)); }
    var kept;
    kept, next, owner' := Divide(items, l, r, cmp, was, owner, ranges);
    overflow := space == stack.Length;
    ranges' := ranges + [kept];
    if !overflow { Push(stack, space, kept, ranges); }
  }

  /**
   sort_quick_iterative.  The stack overflows exactly if the array needs a 17th pair: never with fewer
   than 33 * 2^16 elements, and with just as many only if the first partition is in the middle.
   */
  method SortQuickIterative<T(!new)>(items: array<T>, cmp: (T, T) -> bool) returns (overflow: bool)
    requires StrictWeak(cmp)
    modifies items
    ensures multiset(items[..]) == multiset(old(items[..]))
    ensures !overflow ==> SortedPermutation(cmp, old(items[..]), items[..])
    ensures overflow <==> Pairs(cmp, old(items[..])) > 16
    ensures items.Length < LIMIT ==> !overflow
    ensures items.Length >= LIMIT && Ascending(cmp, old(items[..])) ==> overflow
    ensures items.Length == LIMIT && overflow ==> Partitioned(cmp, old(items[..])).1 == LIMIT / 2 - 1
  {
    SeventeenthPair(cmp, items[..]);
    ghost var was, count := items[..], items.Length;
    ghost var owner, ranges: seq<Range> := seq(count, _ => 0), [];
    var stack := new int[32];
    var space, l, r := 0, 0, items.Length - 1;
    assert Window(was, l, r) == was;
    while true
      invariant InLoop(cmp, was, items[..], stack[..], space, owner, ranges, l, r)
      decreases Unsettled(owner), |ranges|
    {
      var next;
      if r - l < 32 {
        if space == 0 {
          ShortFits(cmp, items[..], Range(l, r), 0);
          ghost var owner' := SortShort(items, l, r, cmp, was, owner, ranges);
          return false;
        }
        next, owner, ranges := TurnShort(items, stack, space, l, r, cmp, was, owner, ranges);
        space := space - 2;
      } else {
        overflow, next, owner, ranges := TurnLong(items, stack, space, l, r, cmp, was, owner, ranges);
        if overflow {
          return true;
        }
        space := space + 2;
      }
      l, r := next.lo, next.hi;
    }
  }

  /** With the last range sorted, everything is. */
  lemma AllSettled<T>(cmp: (T, T) -> bool, was: seq<T>, s: seq<T>, owner: seq<int>, l: int, r: int)
    requires Shuffled(was, s, 0, |was| - 1) && |s| == |owner|
    requires Pending(owner, [], l, r) && Settled(cmp, s, Finished(owner, 0))
    ensures SortedPermutation(cmp, was, s)
  {
    forall x: nat, y: nat | x < y < |s| ensures !cmp(s[y], s[x]) {
      assert PairSettled(cmp, s, Finished(owner, 0), x, y);
    }
  }

  /**
   No array of fewer than 33 * 2^16 elements overflows the stack, and there are arrays of every other
   length that do: the numbers in order overflow it exactly from the limit on.
   */
  method SortNumbersInOrder(count: nat) returns (overflow: bool)
    ensures overflow <==> count >= LIMIT
  {
    var less := (x: int, y: int) => x < y;
    var items := new int[count](i => i);
    forall x: nat, y: nat | x < y < items.Length ensures Precedes(less, items[..], x, y) {
      assert items[..][x] == x && items[..][y] == y;
    }
    overflow := SortQuickIterative(items, less);
  }
}
