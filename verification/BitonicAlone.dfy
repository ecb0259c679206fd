/**
 The loops of sort_bitonic run over all chunks by a single thread: what every interleaving comes to.
 */
module BitonicAlone {
  import opened Positions
  import opened Bitwise
  import opened Networks
  import opened ThreadedNetworks
  import opened BitonicThreads
  import Bitonic

  /** What position c holds when the positions before i have been visited in a step that began with s0. */
  function Visited<V>(cmp: (V, V) -> bool, limit: nat, k: nat, j: nat, i: nat, s0: seq<V>, c: nat): V
    requires c < |s0| && j > 0
  {
    if Bitonic.Lower(c, j) < i then Keep(cmp, Bitonic.WireAt(limit, k, j, c), s0, c) else s0[c]
  }

  ghost predicate UpTo<V>(cmp: (V, V) -> bool, limit: nat, k: nat, j: nat, i: nat, s0: seq<V>, s: seq<V>) {
    && |s| == |s0| && j > 0
    && forall c {:trigger s[c]} :: 0 <= c < |s| ==> s[c] == Visited(cmp, limit, k, j, i, s0, c)
  }

  /** What the loop body does to the array at position i. */
  function Body<V>(cmp: (V, V) -> bool, job: Job, s: seq<V>): seq<V>
    requires job.Exchange? ==> job.a < |s| && job.b < |s|
  {
    if job.Exchange? && cmp(s[job.a], s[job.b]) then s[job.a := s[job.b]][job.b := s[job.a]] else s
  }

  lemma BodyStep<V>(cmp: (V, V) -> bool, limit: nat, k: nat, j: nat, i: nat, s0: seq<V>, s: seq<V>)
    requires PowerOfTwo(|s|) && PowerOfTwo(k) && PowerOfTwo(j) && j <= k < |s| && i < limit <= |s|
    requires UpTo(cmp, limit, k, j, i, s0, s)
    ensures var job := JobAt(k, j, i);
            && (job.Exchange? ==> job.a < |s| && job.b < |s|)
            && UpTo(cmp, limit, k, j, i + 1, s0, Body(cmp, job, s))
  {
    JobMatchesWires(limit, k, j, i, |s|);
    forall c: nat {:trigger Bitonic.Lower(c, j)} | c < |s|
      ensures EndOf(JobAt(k, j, i), c) <==> Bitonic.Lower(c, j) == i
    {
      LowerIs(k, j, i, c, |s|);
    }
    BodyOn(cmp, limit, k, j, i, JobAt(k, j, i), s0, s);
  }

  predicate EndOf(job: Job, c: nat) {
    job.Exchange? && (c == job.a || c == job.b)
  }

  lemma BodyOn<V>(cmp: (V, V) -> bool, limit: nat, k: nat, j: nat, i: nat, job: Job, s0: seq<V>, s: seq<V>)
    requires UpTo(cmp, limit, k, j, i, s0, s)
    requires forall c: nat {:trigger Bitonic.Lower(c, j)} :: c < |s| ==> (EndOf(job, c) <==> Bitonic.Lower(c, j) == i)
    requires job.Exchange? ==>
               && job.a < |s| && job.b < |s| && job.a != job.b
               && Bitonic.WireAt(limit, k, j, job.b) == KeepMin(job.a)
               && Bitonic.WireAt(limit, k, j, job.a) == KeepMax(job.b)
    ensures UpTo(cmp, limit, k, j, i + 1, s0, Body(cmp, job, s))
  {
    var s' := Body(cmp, job, s);
    if job.Exchange? {
      assert Bitonic.Lower(job.a, j) == i && Bitonic.Lower(job.b, j) == i;
      assert s[job.a] == s0[job.a] && s[job.b] == s0[job.b];
    }
    forall c {:trigger s'[c]} | 0 <= c < |s| ensures s'[c] == Visited(cmp, limit, k, j, i + 1, s0, c) {
      assert EndOf(job, c) <==> Bitonic.Lower(c, j) == i;
    }
  }

  /** The positions whose pair has i as its lower end are the two ends that the job at i deals with, if it has any. */
  lemma LowerIs(k: nat, j: nat, i: nat, c: nat, n: nat)
    requires PowerOfTwo(n) && PowerOfTwo(k) && PowerOfTwo(j) && j <= k < n && i < n && c < n
    ensures EndOf(JobAt(k, j, i), c) <==> Bitonic.Lower(c, j) == i
  {
    JobAtIs(k, j, i);
    LowerOfPair(k, j, i, c, n);
  }

  lemma LowerOfPair(k: nat, j: nat, i: nat, c: nat, n: nat)
    requires PowerOfTwo(n) && PowerOfTwo(j) && 0 < j <= k < n && i < n && c < n
    ensures EndOf(PairJob(k, j, i), c) <==> Bitonic.Lower(c, j) == i
  {
    PairEnds(c, j, n);
    PairEnds(i, j, n);
  }

  /** One step of one stage: all positions in order. */
  method OneStep<V>(items: array<V>, limit: nat, k: nat, j: nat, cmp: (V, V) -> bool)
    requires PowerOfTwo(items.Length) && PowerOfTwo(k) && PowerOfTwo(j) && j <= k < items.Length
             && limit <= items.Length
    modifies items
    ensures items[..] == Apply(cmp, Bitonic.Wiring(limit)(k, j), old(items[..]))
  {
    ghost var s0 := items[..];
    var i := 0;
    while i < limit
      invariant 0 <= i <= limit && UpTo(cmp, limit, k, j, i, s0, items[..])
    {
      BodyStep(cmp, limit, k, j, i, s0, items[..]);
      var ik, l := And(i, 2 * k), Xor(i, j);
      var a, b := if ik != 0 then i else l, if ik != 0 then l else i;
      if l > i && cmp(items[a], items[b]) {
        items[a], items[b] := items[b], items[a];
      }
      i := i + 1;
    }
    AllVisited(cmp, limit, k, j, s0, items[..]);
  }

  lemma AllVisited<V>(cmp: (V, V) -> bool, limit: nat, k: nat, j: nat, s0: seq<V>, s: seq<V>)
    requires k > 0 && UpTo(cmp, limit, k, j, limit, s0, s)
    ensures s == Apply(cmp, Bitonic.Wiring(limit)(k, j), s0)
  {
    forall c {:trigger s[c]} | 0 <= c < |s| ensures s[c] == Apply(cmp, Bitonic.Wiring(limit)(k, j), s0)[c] {
      assert Bitonic.Wiring(limit)(k, j)(c) == Bitonic.WireAt(limit, k, j, c);
    }
  }

  /** sort_bitonic, with the chunks of all threads one after the other in every step. */
  method SortInOrder<V>(items: array<V>, threads: nat, cmp: (V, V) -> bool)
    requires threads > 0
    modifies items
    ensures items[..] == Outcome(cmp, threads, old(items[..]))
  {
    var count := items.Length;
    if !PowerOfTwo(count) {
      return;
    }
    ghost var was, net := items[..], Bitonic.Wiring(Reach(count, threads));
    var limit := count / threads * threads;
    var k := 1;
    while k < count
      invariant PowerOfTwo(k) && k <= count && items[..] == Staged(cmp, net, k, was)
      decreases count - k
    {
      var j := k;
      while j > 0
        invariant 0 <= j <= k && (j == 0 || PowerOfTwo(j))
        invariant Stage(cmp, net, k, j, items[..]) == Staged(cmp, net, 2 * k, was)
      {
        OneStep(items, limit, k, j, cmp);
        j := j / 2;
      }
      PowerDivides(k, count);
      DoublePower(k);
      k := 2 * k;
    }
  }
}
