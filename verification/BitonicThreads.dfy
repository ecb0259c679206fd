/**
 sort_bitonic: the threads split the positions into chunks and carry out the bitonic network in
 lock-step.
 */
module BitonicThreads {
  import opened Order
  import opened Positions
  import opened Bitwise
  import opened Networks
  import opened Phases
  import opened FairRuns
  import opened ThreadedNetworks
  import Bitonic

  /** What the loop body does at position i in step j of stage k. */
  function JobAt(k: nat, j: nat, i: nat): Job {
    var ik, l := And(i, 2 * k), Xor(i, j);
    var a, b := if ik != 0 then i else l, if ik != 0 then l else i;
    if l > i then Exchange(a, b) else Skip
  }

  function PairJob(k: nat, j: nat, i: nat): Job
    requires k > 0 && j > 0
  {
    if Bitonic.Lower(i, j) != i then Skip else if BitSet(i, 2 * k) then Exchange(i, i + j) else Exchange(i + j, i)
  }

  /** It deals with the pair whose lower end is i, in the direction that bit 2k of i says. */
  lemma JobAtIs(k: nat, j: nat, i: nat)
    requires PowerOfTwo(k) && PowerOfTwo(j)
    ensures JobAt(k, j, i) == PairJob(k, j, i)
  {
    DoublePower(k);
    AndPower(i, 2 * k);
    XorPower(i, j);
    if BitSet(i, j) { BitAtLeast(i, j); }
  }

  /** Thread t visits the positions from chunk * t up to, but not including, chunk * (t + 1). */
  function Chunked(chunk: nat, limit: nat): Work {
    Work(
      (r: nat, t: nat) => chunk,
      (r: nat, t: nat, x: nat) => JobAt(StepOf(r).0, StepOf(r).1, chunk * t + x),
      (r: nat, c: nat) => OwnerOf(chunk, limit, StepOf(r).1, c),
      (r: nat, c: nat) => SlotOf(chunk, limit, StepOf(r).1, c))
  }

  function OwnerOf(chunk: nat, limit: nat, j: nat, c: nat): nat {
    if j > 0 && chunk > 0 && Bitonic.Lower(c, j) < limit then Quotient(Bitonic.Lower(c, j), chunk) else 0
  }

  function SlotOf(chunk: nat, limit: nat, j: nat, c: nat): nat {
    if j > 0 && chunk > 0 && Bitonic.Lower(c, j) < limit then Remainder(Bitonic.Lower(c, j), chunk) else 0
  }

  /** Inside an array whose length is a power of two, a pair of step j names its lower end from both sides. */
  lemma PairEnds(i: nat, j: nat, n: nat)
    requires PowerOfTwo(n) && PowerOfTwo(j) && j < n && i < n
    ensures Bitonic.Lower(i, j) == i ==> i + j < n && Bitonic.Lower(i + j, j) == i
    ensures Bitonic.Lower(i, j) != i ==> i >= j && Bitonic.Lower(i, j) == i - j && Bitonic.Lower(i - j, j) == i - j
  {
    PowerDivides(j, n);
    var B := BlockOf(i, j, n);
    BitInBlock(B, j, i);
    if i >= B + j { BitInBlock(B, j, i - j); } else { BitInBlock(B, j, i + j); }
  }

  /** The job at position i puts the pair whose lower end is i in order, the way the wires say. */
  ghost predicate JobWired(limit: nat, k: nat, j: nat, i: nat, n: nat) {
    j > 0 && JobWiredAs(JobAt(k, j, i), limit, k, j, i, n)
  }

  ghost predicate JobWiredAs(job: Job, limit: nat, k: nat, j: nat, i: nat, n: nat)
    requires j > 0
  {
    match job
    case Skip => true
    case Exchange(a, b) =>
      && a < n && b < n && a != b
      && Bitonic.WireAt(limit, k, j, b) == KeepMin(a) && Bitonic.WireAt(limit, k, j, a) == KeepMax(b)
      && Bitonic.Lower(a, j) == Bitonic.Lower(b, j) == i
  }

  lemma JobMatchesWires(limit: nat, k: nat, j: nat, i: nat, n: nat)
    requires PowerOfTwo(n) && PowerOfTwo(k) && PowerOfTwo(j) && j <= k < n && i < limit <= n
    ensures JobWired(limit, k, j, i, n)
  {
    JobAtIs(k, j, i);
    PairJobWired(limit, k, j, i, n);
  }

  lemma PairJobWired(limit: nat, k: nat, j: nat, i: nat, n: nat)
    requires PowerOfTwo(n) && PowerOfTwo(j) && 0 < j <= k < n && i < limit <= n
    ensures JobWiredAs(PairJob(k, j, i), limit, k, j, i, n)
  {
    PairEnds(i, j, n);
  }

  /** A position with a wire belongs to the job at the lower end of its pair. */
  lemma WireHasJob(limit: nat, k: nat, j: nat, c: nat, n: nat)
    requires PowerOfTwo(n) && PowerOfTwo(k) && PowerOfTwo(j) && j <= k < n && c < n
             && Bitonic.WireAt(limit, k, j, c) != Idle
    ensures Bitonic.Lower(c, j) < limit
    ensures var job := JobAt(k, j, Bitonic.Lower(c, j)); job.Exchange? && (job.a == c || job.b == c)
  {
    PairEnds(c, j, n);
    JobAtIs(k, j, Bitonic.Lower(c, j));
  }

  lemma ChunkedJob(chunk: nat, threads: nat, limit: nat, r: nat, t: nat, x: nat, n: nat)
    requires PowerOfTwo(n) && r < Rounds(n) && t < threads && x < chunk && limit == chunk * threads && limit <= n
    ensures JobOk(Chunked(chunk, limit), Layers(Bitonic.Wiring(limit))(r), r, t, x, n)
  {
    StepInRange(r, n);
    var k, j := StepOf(r).0, StepOf(r).1;
    var i := chunk * t + x;
    assert i < limit by { ChunkEnds(chunk, t, x, threads); }
    assert Quotient(i, chunk) == t && Remainder(i, chunk) == x by { QuotientUnique(chunk, t, x); }
    JobMatchesWires(limit, k, j, i, n);
    JobIsOk(chunk, limit, r, t, x, i, n);
  }

  lemma JobIsOk(chunk: nat, limit: nat, r: nat, t: nat, x: nat, i: nat, n: nat)
    requires i == chunk * t + x && i < limit && x < chunk && Quotient(i, chunk) == t && Remainder(i, chunk) == x
    requires StepOf(r).0 > 0 && StepOf(r).1 > 0
    requires JobWired(limit, StepOf(r).0, StepOf(r).1, i, n)
    ensures JobOk(Chunked(chunk, limit), Layers(Bitonic.Wiring(limit))(r), r, t, x, n)
  {
    var w := Chunked(chunk, limit);
    assert w.job(r, t, x) == JobAt(StepOf(r).0, StepOf(r).1, i);
  }

  lemma PlaceInChunk(chunk: nat, threads: nat, l: nat)
    requires l < chunk * threads
    ensures chunk > 0 && Quotient(l, chunk) < threads && l == chunk * Quotient(l, chunk) + Remainder(l, chunk)
  {
    if chunk > 0 {
      QuotientRemainder(l, chunk);
      ChunkEnds(chunk, Quotient(l, chunk), Remainder(l, chunk), threads);
    }
  }

  lemma ChunkedCell(chunk: nat, threads: nat, limit: nat, r: nat, c: nat, n: nat)
    requires PowerOfTwo(n) && r < Rounds(n) && threads > 0 && c < n && limit == chunk * threads
    ensures CellOk(Chunked(chunk, limit), Layers(Bitonic.Wiring(limit))(r), r, c, threads)
  {
    StepInRange(r, n);
    var k, j := StepOf(r).0, StepOf(r).1;
    var l := Bitonic.Lower(c, j);
    if l < limit { PlaceInChunk(chunk, threads, l); }
    if Bitonic.WireAt(limit, k, j, c) != Idle { WireHasJob(limit, k, j, c, n); }
    CellIsOk(chunk, limit, threads, r, c, l);
  }

  lemma CellIsOk(chunk: nat, limit: nat, threads: nat, r: nat, c: nat, l: nat)
    requires StepOf(r).0 > 0 && StepOf(r).1 > 0 && threads > 0 && l == Bitonic.Lower(c, StepOf(r).1)
    requires l < limit ==>
               chunk > 0 && Quotient(l, chunk) < threads && l == chunk * Quotient(l, chunk) + Remainder(l, chunk)
    requires Bitonic.WireAt(limit, StepOf(r).0, StepOf(r).1, c) != Idle
             ==> l < limit && var job := JobAt(StepOf(r).0, StepOf(r).1, l); job.Exchange? && (job.a == c || job.b == c)
    ensures CellOk(Chunked(chunk, limit), Layers(Bitonic.Wiring(limit))(r), r, c, threads)
  {
    var w := Chunked(chunk, limit);
    if l < limit {
      assert w.job(r, w.owner(r, c), w.slot(r, c)) == JobAt(StepOf(r).0, StepOf(r).1, l);
    }
  }

  /** sort_bitonic as every thread runs it. */
  function SortBitonic<V>(cmp: (V, V) -> bool, count: nat, threads: nat): Program<Point<V>, V>
    requires threads > 0
  {
    var chunk := count / threads;
    Threaded(cmp, Chunked(chunk, chunk * threads), threads, Rounds(count), count)
  }

  /** The first position that no chunk reaches. */
  function Reach(count: nat, threads: nat): (limit: nat)
    requires threads > 0
    ensures limit <= count < limit + threads && limit == count - count % threads
  {
    (count / threads) * threads
  }

  ghost function OutlineFor<V>(cmp: (V, V) -> bool, count: nat, threads: nat): Outline<Point<V>, V>
    requires threads > 0
  {
    NetworkOutline(cmp, Chunked(count / threads, Reach(count, threads)), Layers(Bitonic.Wiring(Reach(count, threads))))
  }

  lemma BitonicSound<V(!new)>(cmp: (V, V) -> bool, count: nat, threads: nat)
    requires threads > 0
    ensures Sound(SortBitonic(cmp, count, threads), OutlineFor(cmp, count, threads))
  {
    var chunk, limit := count / threads, Reach(count, threads);
    assert limit == chunk * threads;
    var w, layers := Chunked(chunk, limit), Layers(Bitonic.Wiring(limit));
    forall r | 0 <= r < Rounds(count) ensures Realizes(w, layers(r), r, threads, count) {
      forall t, x | 0 <= t < threads && 0 <= x < w.len(r, t) ensures JobOk(w, layers(r), r, t, x, count) {
        ChunkedJob(chunk, threads, limit, r, t, x, count);
      }
      forall c | 0 <= c < count ensures CellOk(w, layers(r), r, c, threads) {
        ChunkedCell(chunk, threads, limit, r, c, count);
      }
    }
    NetworkSound(cmp, w, layers, threads, Rounds(count), count);
  }

  /** What sort_bitonic leaves in the array: the network restricted to the chunks, or nothing if it returned early. */
  function Outcome<V>(cmp: (V, V) -> bool, threads: nat, items: seq<V>): seq<V>
    requires threads > 0
  {
    if PowerOfTwo(|items|) then Staged(cmp, Bitonic.Wiring(Reach(|items|, threads)), |items|, items) else items
  }

  /** Every interleaving leaves the same array, and it is there as soon as one thread returns. */
  lemma BitonicDeterministic<V(!new)>(cmp: (V, V) -> bool, threads: nat, items: seq<V>, schedule: seq<nat>, t: nat)
    requires threads > 0 && t < threads
    ensures var p := SortBitonic(cmp, |items|, threads);
            var s := Exec(p, Initial(p, items), schedule);
            |s.threads| == threads && (Exited(p, s.threads[t]) ==> s.mem == Outcome(cmp, threads, items))
  {
    var p := SortBitonic(cmp, |items|, threads);
    var o := OutlineFor(cmp, |items|, threads);
    BitonicSound(cmp, |items|, threads);
    Deterministic(p, o, items, schedule, t);
    AllRounds(cmp, Bitonic.Wiring(Reach(|items|, threads)), o.effect, |items|, items);
  }

  /** A thread that has no rounds to do never does anything. */
  lemma {:induction false} NoRounds<L, V>(p: Program<L, V>, mem: seq<V>, schedule: seq<nat>)
    requires p.rounds == 0
    ensures Exec(p, Initial(p, mem), schedule) == Initial(p, mem)
  {
    if schedule != [] { NoRounds(p, mem, schedule[..|schedule| - 1]); }
  }

  /** For a length that is not a power of two every thread returns at once, and the array is left as it is. */
  lemma BitonicReturnsAtOnce<V(!new)>(cmp: (V, V) -> bool, threads: nat, items: seq<V>, schedule: seq<nat>)
    requires threads > 0 && !PowerOfTwo(|items|)
    ensures var p := SortBitonic(cmp, |items|, threads);
            var s := Exec(p, Initial(p, items), schedule);
            s.mem == items && |s.threads| == threads && forall t :: 0 <= t < threads ==> Exited(p, s.threads[t])
  {
    NoRounds(SortBitonic(cmp, |items|, threads), items, schedule);
  }

  /** Whatever the length and the number of threads, the elements are only rearranged. */
  lemma BitonicRearranges<V(!new)>(cmp: (V, V) -> bool, threads: nat, items: seq<V>, schedule: seq<nat>, t: nat)
    requires threads > 0 && t < threads
    ensures var p := SortBitonic(cmp, |items|, threads);
            var s := Exec(p, Initial(p, items), schedule);
            |s.threads| == threads && (Exited(p, s.threads[t]) ==> multiset(s.mem) == multiset(items))
  {
    BitonicDeterministic(cmp, threads, items, schedule, t);
    if PowerOfTwo(|items|) { Bitonic.BitonicPermutes(cmp, Reach(|items|, threads), items); }
  }

  /** No pair that position c belongs to is within the reach of the chunks. */
  ghost predicate BeyondReach(c: nat, limit: nat, n: nat) {
    forall j: nat :: 0 < j < n && PowerOfTwo(j) ==> Bitonic.Lower(c, j) >= limit
  }

  /** Such positions stay as they are; with more threads than elements these are all positions. */
  lemma BitonicLeaves<V(!new)>(cmp: (V, V) -> bool, threads: nat, items: seq<V>, schedule: seq<nat>, t: nat, c: nat)
    requires threads > 0 && t < threads && c < |items| && BeyondReach(c, Reach(|items|, threads), |items|)
    ensures var p := SortBitonic(cmp, |items|, threads);
            var s := Exec(p, Initial(p, items), schedule);
            |s.threads| == threads && |s.mem| == |items| && (Exited(p, s.threads[t]) ==> s.mem[c] == items[c])
  {
    BitonicDeterministic(cmp, threads, items, schedule, t);
    BitonicSound(cmp, |items|, threads);
    var p, o := SortBitonic(cmp, |items|, threads), OutlineFor(cmp, |items|, threads);
    var R := ExecInRound(p, o, items, schedule);
    if PowerOfTwo(|items|) { StagedLeaves(cmp, Reach(|items|, threads), |items|, items, c); }
  }

  lemma {:induction false} StageLeaves<V>(cmp: (V, V) -> bool, limit: nat, k: nat, j: nat, s: seq<V>, c: nat)
    requires c < |s| && j < |s| && (j == 0 || PowerOfTwo(j)) && BeyondReach(c, limit, |s|)
    ensures Stage(cmp, Bitonic.Wiring(limit), k, j, s)[c] == s[c]
  {
    if j > 0 {
      var s' := Apply(cmp, Bitonic.Wiring(limit)(k, j), s);
      assert Bitonic.Wiring(limit)(k, j)(c) == Bitonic.WireAt(limit, k, j, c) == Idle;
      StageLeaves(cmp, limit, k, j / 2, s', c);
      assert s'[c] == s[c];
    }
  }

  lemma {:induction false} StagedLeaves<V>(cmp: (V, V) -> bool, limit: nat, k: nat, s: seq<V>, c: nat)
    requires c < |s| && PowerOfTwo(k) && k <= |s| && BeyondReach(c, limit, |s|)
    ensures Staged(cmp, Bitonic.Wiring(limit), k, s)[c] == s[c]
  {
    if k > 1 {
      StagedLeaves(cmp, limit, k / 2, s, c);
      StageLeaves(cmp, limit, k / 2, k / 2, Staged(cmp, Bitonic.Wiring(limit), k / 2, s), c);
    }
  }

  /** With more threads than elements no chunk has any, and nothing moves. */
  lemma TooManyThreads<V(!new)>(cmp: (V, V) -> bool, threads: nat, items: seq<V>, schedule: seq<nat>, t: nat)
    requires t < threads && |items| < threads
    ensures var p := SortBitonic(cmp, |items|, threads);
            var s := Exec(p, Initial(p, items), schedule);
            |s.threads| == threads && (Exited(p, s.threads[t]) ==> s.mem == items)
  {
    BitonicDeterministic(cmp, threads, items, schedule, t);
    OutcomeUntouched(cmp, threads, items);
  }

  lemma OutcomeUntouched<V>(cmp: (V, V) -> bool, threads: nat, items: seq<V>)
    requires |items| < threads
    ensures Outcome(cmp, threads, items) == items
  {
    assert Reach(|items|, threads) == 0;
    if PowerOfTwo(|items|) { NothingReached(cmp, items); }
  }

  lemma NothingReached<V>(cmp: (V, V) -> bool, items: seq<V>)
    requires PowerOfTwo(|items|)
    ensures Staged(cmp, Bitonic.Wiring(0), |items|, items) == items
  {
    var after := Staged(cmp, Bitonic.Wiring(0), |items|, items);
    forall c {:trigger after[c]} | 0 <= c < |items| ensures after[c] == items[c] {
      StagedLeaves(cmp, 0, |items|, items, c);
    }
  }

  /** The array is sorted as soon as one thread returns, provided that the chunks leave out at most one position. */
  lemma BitonicThreadsSort<V(!new)>(cmp: (V, V) -> bool, threads: nat, items: seq<V>, schedule: seq<nat>, t: nat)
    requires StrictWeak(cmp) && threads > 0 && t < threads
    requires PowerOfTwo(|items|) && |items| % threads <= 1
    ensures var p := SortBitonic(cmp, |items|, threads);
            var s := Exec(p, Initial(p, items), schedule);
            |s.threads| == threads && (Exited(p, s.threads[t]) ==> SortedPermutation(cmp, items, s.mem))
  {
    BitonicDeterministic(cmp, threads, items, schedule, t);
    Bitonic.BitonicSorts(cmp, Reach(|items|, threads), items);
  }

  /** Every fair interleaving ends: all threads return, and then the array is the outcome, for good. */
  lemma BitonicFairRunsEnd<V(!new)>(cmp: (V, V) -> bool, threads: nat, items: seq<V>, f: nat -> nat) returns (end: nat)
    requires threads > 0 && Fair(f, threads)
    ensures var p := SortBitonic(cmp, |items|, threads);
            forall n: nat :: n >= end ==> Returned(p, Outcome(cmp, threads, items), At(p, items, f, n))
    ensures StrictWeak(cmp) && PowerOfTwo(|items|) && |items| % threads <= 1
            ==> SortedPermutation(cmp, items, Outcome(cmp, threads, items))
  {
    var count, limit := |items|, Reach(|items|, threads);
    var p, o := SortBitonic(cmp, count, threads), OutlineFor(cmp, count, threads);
    var w, layers := Chunked(count / threads, limit), Layers(Bitonic.Wiring(limit));
    BitonicSound(cmp, count, threads);
    NetworkShrinks(cmp, w, layers, threads, Rounds(count), count);
    end := FairRunsFinish(p, o, StepsLeft(w), items, f);
    AllRounds(cmp, Bitonic.Wiring(limit), o.effect, count, items);
    if StrictWeak(cmp) && PowerOfTwo(count) && count % threads <= 1 { Bitonic.BitonicSorts(cmp, limit, items); }
  }

  /** No interleaving has two threads about to access the same position, and every access is in bounds. */
  lemma BitonicRaceFree<V(!new)>(cmp: (V, V) -> bool, threads: nat, items: seq<V>, schedule: seq<nat>, t: nat, c: nat)
    requires threads > 0 && t < threads
    ensures NoRace(SortBitonic(cmp, |items|, threads), items, schedule, t, c)
  {
    var p, o := SortBitonic(cmp, |items|, threads), OutlineFor(cmp, |items|, threads);
    BitonicSound(cmp, |items|, threads);
    RaceFree(p, o, items, schedule, t, c);
  }
}
