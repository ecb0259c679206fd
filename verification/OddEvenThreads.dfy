/**
 sort_odd_even: the threads take turns at the runs of k pairs and carry out the odd-even merge
 network in lock-step.
 */
module OddEvenThreads {
  import opened Order
  import opened Positions
  import opened Bitwise
  import opened Networks
  import opened Phases
  import opened FairRuns
  import opened ThreadedNetworks
  import OddEven

  /** The first position of the run that thread t starts with in step k of stage p. */
  function FirstRun(p: nat, k: nat, t: nat): nat {
    OddEven.Offset(p, k) + 2 * k * t
  }

  /** How many runs the loop over j makes from j on: j + k < count, j += stride. */
  function Trips(j: nat, stride: nat, k: nat, count: nat): nat
    decreases if count > j then count - j else 0
  {
    if stride == 0 || j + k >= count then 0 else 1 + Trips(j + stride, stride, k, count)
  }

  /** Pair i of run j. */
  function JobAt(p: nat, k: nat, ij: nat): Job {
    var ijk := ij + k;
    if Shr(ij, ShiftOf(p)) == Shr(ijk, ShiftOf(p)) then Exchange(ijk, ij) else Skip
  }

  /** It is compared only if both ends lie in the same block of 2p. */
  lemma JobAtIs(p: nat, k: nat, ij: nat)
    requires PowerOfTwo(p)
    ensures JobAt(p, k, ij) == if SameBlock(ij, ij + k, 2 * p) then Exchange(ij + k, ij) else Skip
  {
    ShiftedEqual(ij, ij + k, p);
  }

  /** The runs begin at k & (p - 1). */
  lemma OffsetIsMask(p: nat, k: nat)
    requires PowerOfTwo(k) && PowerOfTwo(p) && k <= p
    ensures OddEven.Offset(p, k) == And(k, p - 1)
  {
    AndMask(k, p);
  }

  /** Job x of thread t: pair x % k of its run x / k. */
  function PairOf(p: nat, k: nat, threads: nat, t: nat, x: nat): nat
    requires k > 0
  {
    FirstRun(p, k, t) + 2 * k * threads * Quotient(x, k) + Remainder(x, k)
  }

  function Striped(threads: nat, count: nat): Work {
    Work(
      (r: nat, t: nat) => var s := StepOf(r); s.1 * Trips(FirstRun(s.0, s.1, t), 2 * s.1 * threads, s.1, count),
      (r: nat, t: nat, x: nat) =>
        var s := StepOf(r); if s.1 > 0 then JobAt(s.0, s.1, PairOf(s.0, s.1, threads, t, x)) else Skip,
      (r: nat, c: nat) => OwnerOf(StepOf(r).0, StepOf(r).1, threads, c),
      (r: nat, c: nat) => SlotOf(StepOf(r).0, StepOf(r).1, threads, c))
  }

  /** The lower end of the pair that position c belongs to, measured from the offset of the step. */
  function LowerOf(p: nat, k: nat, c: nat): nat {
    var kp := OddEven.Offset(p, k);
    if k == 0 || c < kp then 0
    else if BitSet(c - kp, k) && c - kp >= k then c - kp - k
    else c - kp
  }

  function OwnerOf(p: nat, k: nat, threads: nat, c: nat): nat {
    if k == 0 || threads == 0 then 0 else Remainder(Quotient(LowerOf(p, k, c), 2 * k), threads)
  }

  function SlotOf(p: nat, k: nat, threads: nat, c: nat): nat {
    if k == 0 || threads == 0 then 0
    else k * Quotient(Quotient(LowerOf(p, k, c), 2 * k), threads) + Remainder(LowerOf(p, k, c), 2 * k)
  }

  // ----- arithmetic of the loops -----

  lemma {:induction false} TripsCount(j: nat, stride: nat, k: nat, count: nat, m: nat)
    requires stride > 0
    ensures m < Trips(j, stride, k, count) <==> j + stride * m + k < count
    decreases m
  {
    if m > 0 {
      assert stride * m == stride * (m - 1) + stride;
      assert stride * (m - 1) >= 0;
      if j + k < count { TripsCount(j + stride, stride, k, count, m - 1); }
    }
  }

  /** The pair of job x, measured from the offset: run t + threads * m, pair i. */
  lemma PairPlace(p: nat, k: nat, threads: nat, t: nat, x: nat, y: nat)
    requires k > 0 && y == 2 * k * (t + threads * Quotient(x, k)) + Remainder(x, k)
    ensures PairOf(p, k, threads, t, x) == OddEven.Offset(p, k) + y
  {
    var m := Quotient(x, k);
    Distribute(2 * k, t, threads, m);
  }

  lemma Distribute(d: nat, t: nat, threads: nat, m: nat)
    ensures d * (t + threads * m) == d * t + d * threads * m
  {
    assert d * (threads * m) == d * threads * m;
  }

  /** Run q begins at an aligned place, so pair i < k of it is the lower end of a pair of step k. */
  lemma PlaceBits(k: nat, q: nat, B: nat, i: nat)
    requires i < k && B == 2 * k * q
    ensures Aligned(B, 2 * k)
    ensures !BitSet(B + i, k) && BitSet(B + i + k, k)
    ensures Quotient(B + i, 2 * k) == q && Remainder(B + i, 2 * k) == i
  {
    MultipleAligned(2 * k, q);
    OddEven.BitShift(B, k, i);
    OddEven.BitShift(B, k, i + k);
    QuotientUnique(2 * k, q, i);
  }

  /** The lower end of a pair of step k lies in the first half of its run. */
  lemma {:induction false} LowerHalf(y: nat, k: nat)
    requires k > 0 && !BitSet(y, k)
    ensures Remainder(y, 2 * k) < k
  {
    if y >= 2 * k { LowerHalf(y - 2 * k, k); }
  }

  /** The loop bound j + k < count keeps the whole run in bounds, although i is not guarded. */
  lemma RunInBounds(p: nat, k: nat, B: nat, i: nat, n: nat)
    requires PowerOfTwo(n) && PowerOfTwo(k) && k <= p < n && i < k && Aligned(B, 2 * k)
    requires OddEven.Offset(p, k) + B + k < n
    ensures OddEven.Offset(p, k) + (B + i) + k < n
  {
    PowerDivides(k, n);
    if k == p {
      BelowAligned(B, n, 2 * k);
    } else {
      BelowAligned(B + 2 * k, n, 2 * k);
    }
  }

  lemma {:induction false} BelowAligned(A: nat, n: nat, d: nat)
    requires d > 0 && Aligned(A, d) && Aligned(n, d) && A < n
    ensures A + d <= n
  {
    if A > 0 { BelowAligned(A - d, n - d, d); }
  }

  // ----- the jobs carry out the layer -----

  /** The job at a lower end puts the pair in order the way the wires say. */
  ghost predicate JobWired(p: nat, k: nat, y: nat, n: nat) {
    var ij := OddEven.Offset(p, k) + y;
    match JobAt(p, k, ij)
    case Skip => true
    case Exchange(a, b) =>
      && a < n && b < n && a != b
      && OddEven.WireAt(p, k, b) == KeepMin(a) && OddEven.WireAt(p, k, a) == KeepMax(b)
      && LowerOf(p, k, a) == y && LowerOf(p, k, b) == y
  }

  lemma JobMatchesWires(p: nat, k: nat, y: nat, n: nat)
    requires 0 < k && PowerOfTwo(p) && !BitSet(y, k) && BitSet(y + k, k) && OddEven.Offset(p, k) + y + k < n
    ensures JobWired(p, k, y, n)
  {
    JobAtIs(p, k, OddEven.Offset(p, k) + y);
    EndsAre(p, k, y);
  }

  /** What is known of the two ends of a pair. */
  lemma EndsAre(p: nat, k: nat, y: nat)
    requires 0 < k && 0 < p && !BitSet(y, k) && BitSet(y + k, k)
    ensures var ij := OddEven.Offset(p, k) + y;
            && LowerOf(p, k, ij) == y && LowerOf(p, k, ij + k) == y
            && (SameBlock(ij, ij + k, 2 * p) ==>
                  OddEven.WireAt(p, k, ij) == KeepMin(ij + k) && OddEven.WireAt(p, k, ij + k) == KeepMax(ij))
  {
    var kp := OddEven.Offset(p, k);
    assert kp + y - kp == y && kp + y + k - kp == y + k;
  }

  /** A wire names the end of a pair of step k, so the job at the lower end of that pair has it. */
  ghost predicate JobDealsWith(p: nat, k: nat, y: nat, c: nat, n: nat) {
    var job := JobAt(p, k, OddEven.Offset(p, k) + y);
    k > 0 && !BitSet(y, k) && OddEven.Offset(p, k) + y + k < n && job.Exchange? && (job.a == c || job.b == c)
  }

  lemma WireHasJob(p: nat, k: nat, c: nat, n: nat)
    requires PowerOfTwo(n) && PowerOfTwo(k) && PowerOfTwo(p) && k <= p < n && c < n && OddEven.WireAt(p, k, c) != Idle
    ensures JobDealsWith(p, k, LowerOf(p, k, c), c, n)
  {
    OddEven.PartnersAgree(p, k, n);
    assert PairedAt(OddEven.Wiring()(p, k), c, n);
    WireEnds(p, k, c, n);
  }

  lemma WireEnds(p: nat, k: nat, c: nat, n: nat)
    requires 0 < k <= p && PowerOfTwo(p) && c < n && OddEven.WireAt(p, k, c) != Idle
    requires OddEven.WireAt(p, k, c).KeepMin? ==> OddEven.WireAt(p, k, c).partner < n
    ensures JobDealsWith(p, k, LowerOf(p, k, c), c, n)
  {
    var kp := OddEven.Offset(p, k);
    assert c >= kp;
    var z := c - kp;
    JobAtIs(p, k, kp + LowerOf(p, k, c));
    if BitSet(z, k) {
      OddEven.BitFlip(z, k);
      assert LowerOf(p, k, c) == z - k && SameBlock(c - k, c, 2 * p);
      assert kp + (z - k) == c - k;
    } else {
      assert LowerOf(p, k, c) == z && SameBlock(c, c + k, 2 * p);
    }
  }

  lemma StripedJob(threads: nat, r: nat, t: nat, x: nat, n: nat)
    requires PowerOfTwo(n) && r < Rounds(n) && t < threads && x < Striped(threads, n).len(r, t)
    ensures JobOk(Striped(threads, n), Layers(OddEven.Wiring())(r), r, t, x, n)
  {
    StepInRange(r, n);
    var y := PlaceOfJob(StepOf(r).0, StepOf(r).1, threads, t, x, n);
    JobIsOk(threads, r, t, x, y, n);
  }

  /** Job x of thread t is the job at y, and y belongs to slot x of thread t. */
  ghost predicate AtPlace(p: nat, k: nat, threads: nat, t: nat, x: nat, y: nat)
    requires k > 0 && threads > 0
  {
    && PairOf(p, k, threads, t, x) == OddEven.Offset(p, k) + y
    && Remainder(Quotient(y, 2 * k), threads) == t
    && k * Quotient(Quotient(y, 2 * k), threads) + Remainder(y, 2 * k) == x
  }

  lemma PlaceOfJob(p: nat, k: nat, threads: nat, t: nat, x: nat, n: nat) returns (y: nat)
    requires PowerOfTwo(n) && PowerOfTwo(k) && PowerOfTwo(p) && k <= p < n && t < threads
    requires x < k * Trips(FirstRun(p, k, t), 2 * k * threads, k, n)
    ensures AtPlace(p, k, threads, t, x, y) && JobWired(p, k, y, n)
  {
    var B: nat;
    y, B := PlaceInRun(p, k, threads, t, x);
    JobInLoop(p, k, threads, t, x, B, n);
    RunInBounds(p, k, B, Remainder(x, k), n);
    JobMatchesWires(p, k, y, n);
  }

  lemma PlaceInRun(p: nat, k: nat, threads: nat, t: nat, x: nat) returns (y: nat, B: nat)
    requires k > 0 && t < threads
    ensures AtPlace(p, k, threads, t, x, y)
    ensures B == 2 * k * (t + threads * Quotient(x, k)) && y == B + Remainder(x, k)
    ensures Aligned(B, 2 * k) && !BitSet(y, k) && BitSet(y + k, k)
  {
    var q := t + threads * Quotient(x, k);
    B := 2 * k * q;
    y := B + Remainder(x, k);
    PlaceBits(k, q, B, Remainder(x, k));
    PlaceIs(p, k, threads, t, x, y, q);
  }

  lemma PlaceIs(p: nat, k: nat, threads: nat, t: nat, x: nat, y: nat, q: nat)
    requires k > 0 && t < threads && q == t + threads * Quotient(x, k) && y == 2 * k * q + Remainder(x, k)
    requires Quotient(y, 2 * k) == q && Remainder(y, 2 * k) == Remainder(x, k)
    ensures AtPlace(p, k, threads, t, x, y)
  {
    PairPlace(p, k, threads, t, x, y);
    QuotientRemainder(x, k);
    SlotOfPlace(k, threads, t, Quotient(x, k), Remainder(x, k), y, q, x);
  }

  /** Pair i of run t + threads * m is in slot k * m + i of thread t. */
  lemma SlotOfPlace(k: nat, threads: nat, t: nat, m: nat, i: nat, y: nat, q: nat, x: nat)
    requires k > 0 && t < threads && q == t + threads * m && x == k * m + i
    requires Quotient(y, 2 * k) == q && Remainder(y, 2 * k) == i
    ensures Remainder(Quotient(y, 2 * k), threads) == t
    ensures k * Quotient(Quotient(y, 2 * k), threads) + Remainder(y, 2 * k) == x
  {
    QuotientUnique(threads, m, t);
  }

  lemma JobInLoop(p: nat, k: nat, threads: nat, t: nat, x: nat, B: nat, n: nat)
    requires k > 0 && t < threads && B == 2 * k * (t + threads * Quotient(x, k))
    requires x < k * Trips(FirstRun(p, k, t), 2 * k * threads, k, n)
    ensures OddEven.Offset(p, k) + B + k < n
  {
    var m := Quotient(x, k);
    QuotientRemainder(x, k);
    ChunkEnds(k, m, Remainder(x, k), Trips(FirstRun(p, k, t), 2 * k * threads, k, n));
    assert 2 * k * threads > 0;
    TripsCount(FirstRun(p, k, t), 2 * k * threads, k, n, m);
    Distribute(2 * k, t, threads, m);
  }

  lemma JobIsOk(threads: nat, r: nat, t: nat, x: nat, y: nat, n: nat)
    requires StepOf(r).1 > 0 && threads > 0
    requires AtPlace(StepOf(r).0, StepOf(r).1, threads, t, x, y) && JobWired(StepOf(r).0, StepOf(r).1, y, n)
    ensures JobOk(Striped(threads, n), Layers(OddEven.Wiring())(r), r, t, x, n)
  {
    var p, k := StepOf(r).0, StepOf(r).1;
    assert Striped(threads, n).job(r, t, x) == JobAt(p, k, OddEven.Offset(p, k) + y);
  }

  lemma StripedCell(threads: nat, r: nat, c: nat, n: nat)
    requires PowerOfTwo(n) && r < Rounds(n) && threads > 0 && c < n
    ensures CellOk(Striped(threads, n), Layers(OddEven.Wiring())(r), r, c, threads)
  {
    StepInRange(r, n);
    var p, k := StepOf(r).0, StepOf(r).1;
    assert Layers(OddEven.Wiring())(r)(c) == OddEven.WireAt(p, k, c);
    if OddEven.WireAt(p, k, c) != Idle {
      SlotOfWire(p, k, threads, c, n);
      CellIsOk(threads, r, c, LowerOf(p, k, c), SlotOf(p, k, threads, c), n);
    }
  }

  lemma SlotOfWire(p: nat, k: nat, threads: nat, c: nat, n: nat)
    requires PowerOfTwo(n) && PowerOfTwo(k) && PowerOfTwo(p) && k <= p < n && c < n && threads > 0
    requires OddEven.WireAt(p, k, c) != Idle
    ensures InSlot(p, k, threads, LowerOf(p, k, c), SlotOf(p, k, threads, c), n)
    ensures JobDealsWith(p, k, LowerOf(p, k, c), c, n)
  {
    WireHasJob(p, k, c, n);
    SlotPlace(p, k, threads, LowerOf(p, k, c), SlotOf(p, k, threads, c), n);
  }

  /** The job in slot x of the owner of y is the job at y. */
  ghost predicate InSlot(p: nat, k: nat, threads: nat, y: nat, x: nat, n: nat)
    requires k > 0 && threads > 0
  {
    var t := Remainder(Quotient(y, 2 * k), threads);
    x < k * Trips(FirstRun(p, k, t), 2 * k * threads, k, n) && PairOf(p, k, threads, t, x) == OddEven.Offset(p, k) + y
  }

  lemma SlotPlace(p: nat, k: nat, threads: nat, y: nat, x: nat, n: nat)
    requires k > 0 && threads > 0 && !BitSet(y, k) && OddEven.Offset(p, k) + y + k < n
    requires x == k * Quotient(Quotient(y, 2 * k), threads) + Remainder(y, 2 * k)
    ensures InSlot(p, k, threads, y, x, n)
  {
    var q, i := Quotient(y, 2 * k), Remainder(y, 2 * k);
    var t, m := Remainder(q, threads), Quotient(q, threads);
    LowerHalf(y, k);
    QuotientRemainder(y, 2 * k);
    QuotientRemainder(q, threads);
    QuotientUnique(k, m, i);
    SlotInLoop(p, k, threads, t, m, i, n);
    PairPlace(p, k, threads, t, x, y);
  }

  lemma SlotInLoop(p: nat, k: nat, threads: nat, t: nat, m: nat, i: nat, n: nat)
    requires k > 0 && threads > 0 && i < k && OddEven.Offset(p, k) + 2 * k * (t + threads * m) + i + k < n
    ensures k * m + i < k * Trips(FirstRun(p, k, t), 2 * k * threads, k, n)
  {
    Distribute(2 * k, t, threads, m);
    assert 2 * k * threads > 0;
    TripsCount(FirstRun(p, k, t), 2 * k * threads, k, n, m);
    ChunkEnds(k, m, i, Trips(FirstRun(p, k, t), 2 * k * threads, k, n));
  }

  lemma CellIsOk(threads: nat, r: nat, c: nat, y: nat, x: nat, n: nat)
    requires StepOf(r).1 > 0 && threads > 0
    requires y == LowerOf(StepOf(r).0, StepOf(r).1, c) && x == SlotOf(StepOf(r).0, StepOf(r).1, threads, c)
    requires InSlot(StepOf(r).0, StepOf(r).1, threads, y, x, n) && JobDealsWith(StepOf(r).0, StepOf(r).1, y, c, n)
    ensures CellOk(Striped(threads, n), Layers(OddEven.Wiring())(r), r, c, threads)
  {
    var p, k := StepOf(r).0, StepOf(r).1;
    var w := Striped(threads, n);
    assert w.job(r, w.owner(r, c), w.slot(r, c)) == JobAt(p, k, OddEven.Offset(p, k) + y);
  }

  // ----- the theorems -----

  /** sort_odd_even as every thread runs it. */
  function SortOddEven<V>(cmp: (V, V) -> bool, count: nat, threads: nat): Program<Point<V>, V> {
    Threaded(cmp, Striped(threads, count), threads, Rounds(count), count)
  }

  ghost function OutlineFor<V>(cmp: (V, V) -> bool, count: nat, threads: nat): Outline<Point<V>, V> {
    NetworkOutline(cmp, Striped(threads, count), Layers(OddEven.Wiring()))
  }

  lemma OddEvenSound<V(!new)>(cmp: (V, V) -> bool, count: nat, threads: nat)
    requires threads > 0
    ensures Sound(SortOddEven(cmp, count, threads), OutlineFor(cmp, count, threads))
  {
    var w, layers := Striped(threads, count), Layers(OddEven.Wiring());
    forall r | 0 <= r < Rounds(count) ensures Realizes(w, layers(r), r, threads, count) {
      forall t, x | 0 <= t < threads && 0 <= x < w.len(r, t) ensures JobOk(w, layers(r), r, t, x, count) {
        StripedJob(threads, r, t, x, count);
      }
      forall c | 0 <= c < count ensures CellOk(w, layers(r), r, c, threads) {
        StripedCell(threads, r, c, count);
      }
    }
    NetworkSound(cmp, w, layers, threads, Rounds(count), count);
  }

  /**
   Whatever the number of threads and however they are interleaved: once a thread returns, an array
   of power-of-two length is sorted, and any other array is as it was.
   */
  lemma OddEvenThreadsSort<V(!new)>(cmp: (V, V) -> bool, threads: nat, items: seq<V>, schedule: seq<nat>, t: nat)
    requires StrictWeak(cmp) && t < threads
    ensures var p := SortOddEven(cmp, |items|, threads);
            var s := Exec(p, Initial(p, items), schedule);
            |s.threads| == threads &&
            (Exited(p, s.threads[t]) ==>
               if PowerOfTwo(|items|) then SortedPermutation(cmp, items, s.mem) else s.mem == items)
  {
    var p := SortOddEven(cmp, |items|, threads);
    var o := OutlineFor(cmp, |items|, threads);
    OddEvenSound(cmp, |items|, threads);
    Deterministic(p, o, items, schedule, t);
    AllRounds(cmp, OddEven.Wiring(), o.effect, |items|, items);
    if PowerOfTwo(|items|) { OddEven.OddEvenSorts(cmp, items); }
  }

  /** Every fair interleaving ends: all threads return, and then the array is sorted, for good. */
  lemma OddEvenFairRunsEnd<V(!new)>(cmp: (V, V) -> bool, threads: nat, items: seq<V>, f: nat -> nat)
    returns (end: nat, result: seq<V>)
    requires StrictWeak(cmp) && threads > 0 && Fair(f, threads)
    ensures var p := SortOddEven(cmp, |items|, threads);
            forall n: nat :: n >= end ==> Returned(p, result, At(p, items, f, n))
    ensures if PowerOfTwo(|items|) then SortedPermutation(cmp, items, result) else result == items
  {
    var count := |items|;
    var p, o := SortOddEven(cmp, count, threads), OutlineFor(cmp, count, threads);
    OddEvenSound(cmp, count, threads);
    NetworkShrinks(cmp, Striped(threads, count), Layers(OddEven.Wiring()), threads, Rounds(count), count);
    end := FairRunsFinish(p, o, StepsLeft(Striped(threads, count)), items, f);
    result := Iterate(o.effect, p.rounds, items);
    AllRounds(cmp, OddEven.Wiring(), o.effect, count, items);
    if PowerOfTwo(count) { OddEven.OddEvenSorts(cmp, items); }
  }

  /** No interleaving has two threads about to access the same position, and every access is in bounds. */
  lemma OddEvenRaceFree<V(!new)>(cmp: (V, V) -> bool, threads: nat, items: seq<V>, schedule: seq<nat>, t: nat, c: nat)
    requires t < threads
    ensures NoRace(SortOddEven(cmp, |items|, threads), items, schedule, t, c)
  {
    var p := SortOddEven(cmp, |items|, threads);
    OddEvenSound(cmp, |items|, threads);
    RaceFree(p, OutlineFor(cmp, |items|, threads), items, schedule, t, c);
    var R := ExecInRound(p, OutlineFor(cmp, |items|, threads), items, schedule);
  }
}
