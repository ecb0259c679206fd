/**
 A sorting network run by threads in lock-step.

 In each round a thread works through a list of jobs.  A job loads the two elements of a pair,
 compares them and swaps them through a temporary, one memory access at a time.
 */
module ThreadedNetworks {
  import opened Order
  import opened Positions
  import opened Networks
  import opened Phases
  import opened FairRuns

  /** Exchange(a, b): if cmp(items[a], items[b]) then swap them. */
  datatype Job = Skip | Exchange(a: nat, b: nat)

  /**
   How the threads divide the rounds: thread t does the jobs job(r, t, 0), ..., job(r, t, len - 1) of
   round r.  `owner` and `slot` say who takes care of a position and with which of its jobs.
   */
  datatype Work = Work(
    len: (nat, nat) -> nat,
    job: (nat, nat, nat) -> Job,
    owner: (nat, nat) -> nat,
    slot: (nat, nat) -> nat)

  /** Where a thread is within job x. */
  datatype Point<V> =
    | Begin(x: nat)
    | Loaded(x: nat, first: V)
    | Swap(x: nat)
    | HaveTemp(x: nat, temp: V)
    | HaveBoth(x: nat, temp: V, other: V)
    | HalfSwapped(x: nat, temp: V)

  function Act<V>(cmp: (V, V) -> bool, w: Work, r: nat, t: nat, l: Point<V>): Action<Point<V>, V> {
    if l.x >= w.len(r, t) then Halt else
    match w.job(r, t, l.x)
    case Skip => Local(Begin(l.x + 1))
    case Exchange(a, b) =>
      match l
      case Begin(x) => Load(a, v => Loaded(x, v))
      case Loaded(x, va) => Load(b, vb => if cmp(va, vb) then Swap(x) else Begin(x + 1))
      case Swap(x) => Load(a, v => HaveTemp(x, v))
      case HaveTemp(x, temp) => Load(b, v => HaveBoth(x, temp, v))
      case HaveBoth(x, temp, other) => Store(a, other, HalfSwapped(x, temp))
      case HalfSwapped(x, temp) => Store(b, temp, Begin(x + 1))
  }

  function Threaded<V>(cmp: (V, V) -> bool, w: Work, threads: nat, rounds: nat, cells: nat): Program<Point<V>, V> {
    Program(threads, rounds, cells, (r, t) => Begin(0), (r, t, l) => Act(cmp, w, r, t, l))
  }

  // ----- the jobs of a round make up one layer -----

  /** Job x of thread t puts the ends of one pair of the layer in order, and nobody else deals with them. */
  ghost predicate JobOk(w: Work, layer: Layer, r: nat, t: nat, x: nat, n: nat) {
    match w.job(r, t, x)
    case Skip => true
    case Exchange(a, b) =>
      && a < n && b < n && a != b
      && layer(b) == KeepMin(a) && layer(a) == KeepMax(b)
      && w.owner(r, a) == w.owner(r, b) == t
      && w.slot(r, a) == w.slot(r, b) == x
  }

  /** Position c is left alone by the layer, or the job in its slot deals with it. */
  ghost predicate CellOk(w: Work, layer: Layer, r: nat, c: nat, threads: nat) {
    && w.owner(r, c) < threads
    && (layer(c) != Idle ==>
          && w.slot(r, c) < w.len(r, w.owner(r, c))
          && var j := w.job(r, w.owner(r, c), w.slot(r, c)); j.Exchange? && (j.a == c || j.b == c))
  }

  ghost predicate Realizes(w: Work, layer: Layer, r: nat, threads: nat, n: nat) {
    && (forall t, x :: 0 <= t < threads && 0 <= x < w.len(r, t) ==> JobOk(w, layer, r, t, x, n))
    && (forall c :: 0 <= c < n ==> CellOk(w, layer, r, c, threads))
  }

  /** What position c holds when the jobs before x are done. */
  function Partial<V>(cmp: (V, V) -> bool, w: Work, layer: Layer, r: nat, m0: seq<V>, x: nat, c: nat): V
    requires c < |m0|
  {
    if w.slot(r, c) < x then Keep(cmp, layer(c), m0, c) else m0[c]
  }

  /** The positions of thread t while it is at a certain point of the round. */
  ghost predicate Inv<V>(cmp: (V, V) -> bool, w: Work, layer: Layer, r: nat, t: nat, l: Point<V>, m0: seq<V>, m: seq<V>)
    requires |m| == |m0|
  {
    && l.x <= w.len(r, t)
    && (!l.Begin? ==>
          && l.x < w.len(r, t)
          && var j := w.job(r, t, l.x);
             && j.Exchange? && j.a < |m0| && j.b < |m0|
             && (l.Loaded? ==> l.first == m0[j.a])
             && (l.Swap? || l.HaveTemp? || l.HaveBoth? || l.HalfSwapped? ==> cmp(m0[j.a], m0[j.b]))
             && (l.HaveTemp? || l.HaveBoth? || l.HalfSwapped? ==> l.temp == m0[j.a])
             && (l.HaveBoth? ==> l.other == m0[j.b]))
    && forall c {:trigger m[c]} :: 0 <= c < |m0| && w.owner(r, c) == t ==>
         m[c] == if l.HalfSwapped? && c == w.job(r, t, l.x).a then m0[w.job(r, t, l.x).b]
                 else Partial(cmp, w, layer, r, m0, l.x, c)
  }

  ghost function NetworkOutline<V>(cmp: (V, V) -> bool, w: Work, layers: nat -> Layer): Outline<Point<V>, V> {
    Outline(
      (r, c) => w.owner(r, c),
      (r, m) => Apply(cmp, layers(r), m),
      (r, t, l, m0, m) => |m| == |m0| && Inv(cmp, w, layers(r), r, t, l, m0, m))
  }

  /** One memory access keeps the thread's share of the invariant. */
  lemma InvStep<V(!new)>(cmp: (V, V) -> bool, w: Work, layers: nat -> Layer, threads: nat, rounds: nat, n: nat,
      r: nat, t: nat, l: Point<V>, m0: seq<V>, m: seq<V>)
    requires |m0| == |m| == n && t < threads && Realizes(w, layers(r), r, threads, n)
    requires Inv(cmp, w, layers(r), r, t, l, m0, m)
    ensures ActionOk(Threaded(cmp, w, threads, rounds, n), NetworkOutline(cmp, w, layers), r, t, l, m0, m)
  {
    var layer := layers(r);
    var p, o := Threaded(cmp, w, threads, rounds, n), NetworkOutline(cmp, w, layers);
    assert p.act(r, t, l) == Act(cmp, w, r, t, l);
    if l.x >= w.len(r, t) {
      forall c | 0 <= c < n && o.owner(r, c) == t ensures m[c] == o.effect(r, m0)[c] {
        assert CellOk(w, layer, r, c, threads);
      }
    } else {
      assert JobOk(w, layer, r, t, l.x, n);
      match w.job(r, t, l.x)
      case Skip =>
        assert Inv(cmp, w, layer, r, t, Begin(l.x + 1), m0, m) by {
          SkipJob(cmp, w, layer, r, t, l.x, n, threads, m0, m);
        }
      case Exchange(a, b) =>
        assert m[b] == m0[b] && (!l.HalfSwapped? ==> m[a] == m0[a]);
        match l
        case Begin(x) =>
        case Loaded(x, va) =>
          if !cmp(va, m[b]) { FinishJob(cmp, w, layer, r, t, x, n, threads, m0, m, m); }
        case Swap(x) =>
        case HaveTemp(x, temp) =>
        case HaveBoth(x, temp, other) =>
        case HalfSwapped(x, temp) =>
          FinishJob(cmp, w, layer, r, t, x, n, threads, m0, m, m[b := temp]);
    }
  }

  /** A skipped job belongs to no position. */
  lemma SkipJob<V(!new)>(cmp: (V, V) -> bool, w: Work, layer: Layer, r: nat, t: nat, x: nat, n: nat, threads: nat,
      m0: seq<V>, m: seq<V>)
    requires |m0| == |m| == n && t < threads && Realizes(w, layer, r, threads, n)
    requires x < w.len(r, t) && w.job(r, t, x).Skip? && Inv(cmp, w, layer, r, t, Begin(x), m0, m)
    ensures Inv(cmp, w, layer, r, t, Begin(x + 1), m0, m)
  {
    forall c {:trigger m[c]} | 0 <= c < n && w.owner(r, c) == t
      ensures m[c] == Partial(cmp, w, layer, r, m0, x + 1, c)
    {
      assert CellOk(w, layer, r, c, threads);
    }
  }

  /** m' differs from m at most in that the pair of job j is in order. */
  ghost predicate Finished<V>(cmp: (V, V) -> bool, w: Work, layer: Layer, r: nat, t: nat, x: nat, j: Job,
      m0: seq<V>, m: seq<V>, m': seq<V>)
    requires |m0| == |m| == |m'| && j.Exchange?
  {
    && j.a < |m0| && j.b < |m0|
    && m'[j.a] == (if cmp(m0[j.a], m0[j.b]) then m0[j.b] else m0[j.a])
    && m'[j.b] == (if cmp(m0[j.a], m0[j.b]) then m0[j.a] else m0[j.b])
    && (forall c {:trigger m'[c]} :: 0 <= c < |m0| && c != j.a && c != j.b ==> m'[c] == m[c])
    && (forall c {:trigger m[c]} :: 0 <= c < |m0| && w.owner(r, c) == t && c != j.a && c != j.b
          ==> m[c] == Partial(cmp, w, layer, r, m0, x, c))
  }

  /** Once its pair is in order, a job is done. */
  lemma FinishJob<V(!new)>(cmp: (V, V) -> bool, w: Work, layer: Layer, r: nat, t: nat, x: nat, n: nat, threads: nat,
      m0: seq<V>, m: seq<V>, m': seq<V>)
    requires |m0| == |m| == |m'| == n && t < threads && Realizes(w, layer, r, threads, n)
    requires x < w.len(r, t) && w.job(r, t, x).Exchange?
    requires Finished(cmp, w, layer, r, t, x, w.job(r, t, x), m0, m, m')
    ensures Inv(cmp, w, layer, r, t, Begin(x + 1), m0, m')
  {
    var j := w.job(r, t, x);
    assert JobOk(w, layer, r, t, x, n);
    forall c {:trigger m'[c]} | 0 <= c < n && w.owner(r, c) == t
      ensures m'[c] == Partial(cmp, w, layer, r, m0, x + 1, c)
    {
      assert CellOk(w, layer, r, c, threads);
      if c != j.a && c != j.b { assert m'[c] == m[c]; }
    }
  }

  /** The threads carry out the layers, however they are interleaved. */
  lemma NetworkSound<V(!new)>(cmp: (V, V) -> bool, w: Work, layers: nat -> Layer, threads: nat, rounds: nat, n: nat)
    requires threads > 0
    requires forall r :: 0 <= r < rounds ==> Realizes(w, layers(r), r, threads, n)
    ensures Sound(Threaded(cmp, w, threads, rounds, n), NetworkOutline(cmp, w, layers))
  {
    var p, o := Threaded(cmp, w, threads, rounds, n), NetworkOutline(cmp, w, layers);
    forall r, c | 0 <= r < rounds && 0 <= c < n ensures 0 <= o.owner(r, c) < threads {
      assert CellOk(w, layers(r), r, c, threads);
    }
    forall r, t, m0: seq<V>, m: seq<V>
      | 0 <= r < rounds && 0 <= t < threads && |m0| == |m| == n && Agree(p, o, r, t, m, m0)
      ensures o.inv(r, t, p.start(r, t), m0, m)
    {
      assert forall c :: 0 <= c < n && w.owner(r, c) == t ==> o.owner(r, c) == t;
      assert Inv(cmp, w, layers(r), r, t, Begin(0), m0, m);
    }
    forall r, t, l, m0: seq<V>, m: seq<V>, m': seq<V>
      | 0 <= r < rounds && 0 <= t < threads && |m0| == |m| == |m'| == n
        && o.inv(r, t, l, m0, m) && Agree(p, o, r, t, m, m')
      ensures o.inv(r, t, l, m0, m')
    {
      assert forall c :: 0 <= c < n && w.owner(r, c) == t ==> o.owner(r, c) == t;
      assert Inv(cmp, w, layers(r), r, t, l, m0, m);
      assert Inv(cmp, w, layers(r), r, t, l, m0, m');
    }
    forall r, t, l, m0: seq<V>, m: seq<V>
      | 0 <= r < rounds && 0 <= t < threads && |m0| == |m| == n && o.inv(r, t, l, m0, m)
      ensures ActionOk(p, o, r, t, l, m0, m)
    {
      InvStep(cmp, w, layers, threads, rounds, n, r, t, l, m0, m);
    }
  }

  // ----- a round ends -----

  function AccessesDone<V>(l: Point<V>): (n: nat)
    ensures n <= 5
  {
    match l
    case Begin(_) => 0
    case Loaded(_, _) => 1
    case Swap(_) => 2
    case HaveTemp(_, _) => 3
    case HaveBoth(_, _, _) => 4
    case HalfSwapped(_, _) => 5
  }

  /** A job takes six memory accesses at most. */
  function StepsOf<V>(len: nat, l: Point<V>): nat {
    if l.x < len then 6 * (len - l.x) - AccessesDone(l) else 0
  }

  function StepsLeft<V>(w: Work): Steps<Point<V>> {
    (r: nat, t: nat, l: Point<V>) => StepsOf(w.len(r, t), l)
  }

  lemma NetworkShrinks<V(!new)>(cmp: (V, V) -> bool, w: Work, layers: nat -> Layer, threads: nat, rounds: nat, n: nat)
    ensures Shrinks(Threaded(cmp, w, threads, rounds, n), NetworkOutline(cmp, w, layers), StepsLeft(w))
  {
    var p := Threaded(cmp, w, threads, rounds, n);
    forall r: nat, t: nat, l, m: seq<V> ensures ActionShrinks(p, StepsLeft(w), r, t, l, m) {
      assert p.act(r, t, l) == Act(cmp, w, r, t, l);
    }
  }

  // ----- the rounds in order -----

  /** The loops over k = 1, 2, 4, ... and, inside, j = k, k/2, ..., 1, which both network sorts share. */
  function NextStep(k: nat, j: nat): (nat, nat) {
    if j > 1 then (k, j / 2) else (2 * k, 2 * k)
  }

  /** The values of the loop variables in round r. */
  function StepOf(r: nat): (nat, nat) {
    if r == 0 then (1, 1) else var s := StepOf(r - 1); NextStep(s.0, s.1)
  }

  /** How many rounds the loops still make from step j of stage k. */
  function RoundsFrom(k: nat, j: nat, n: nat): nat
    requires 0 < k
    decreases if n > k then n - k else 0, j
  {
    if k >= n then 0 else var s := NextStep(k, j); 1 + RoundsFrom(s.0, s.1, n)
  }

  /** The early return for lengths that are not powers of two leaves no rounds at all. */
  function Rounds(n: nat): nat {
    if PowerOfTwo(n) then RoundsFrom(1, 1, n) else 0
  }

  function Layers(net: Network): nat -> Layer {
    r => net(StepOf(r).0, StepOf(r).1)
  }

  /** The loop variables stay in range, and the rounds that are left are counted right. */
  lemma {:induction false} StepInRange(r: nat, n: nat)
    requires PowerOfTwo(n) && r <= Rounds(n)
    ensures var s := StepOf(r);
            && PowerOfTwo(s.0) && PowerOfTwo(s.1) && s.1 <= s.0 <= n && (s.0 == n ==> s.1 == n)
            && RoundsFrom(1, 1, n) == r + RoundsFrom(s.0, s.1, n)
            && (r < Rounds(n) ==> s.0 < n)
  {
    if r > 0 {
      StepInRange(r - 1, n);
      var s := StepOf(r - 1);
      PowerDivides(s.0, n);
      DoublePower(s.0);
    }
  }

  /** M is the memory just before step j of stage k. */
  ghost predicate AtStep<V>(cmp: (V, V) -> bool, net: Network, k: nat, j: nat, m0: seq<V>, M: seq<V>) {
    && 0 < j <= k
    && (j == k ==> M == Staged(cmp, net, k, m0))
    && Stage(cmp, net, k, j, M) == Staged(cmp, net, 2 * k, m0)
  }

  lemma OneStep<V>(cmp: (V, V) -> bool, net: Network, k: nat, j: nat, m0: seq<V>, M: seq<V>)
    requires AtStep(cmp, net, k, j, m0, M)
    ensures var s := NextStep(k, j); AtStep(cmp, net, s.0, s.1, m0, Apply(cmp, net(k, j), M))
  {
    var M' := Apply(cmp, net(k, j), M);
    assert Stage(cmp, net, k, j, M) == Stage(cmp, net, k, j / 2, M');
    if j == 1 {
      assert Stage(cmp, net, k, 0, M') == M';
      assert 2 * (2 * k) / 2 == 2 * k;
    }
  }

  /** The memory after r rounds, in terms of the stages of the network. */
  lemma {:induction false} RoundsAreStages<V>(cmp: (V, V) -> bool, net: Network, effect: (nat, seq<V>) -> seq<V>,
      r: nat, m0: seq<V>)
    requires forall i, m :: effect(i, m) == Apply(cmp, Layers(net)(i), m)
    ensures AtStep(cmp, net, StepOf(r).0, StepOf(r).1, m0, Iterate(effect, r, m0))
  {
    if r == 0 {
      assert Staged(cmp, net, 1, m0) == m0;
    } else {
      RoundsAreStages(cmp, net, effect, r - 1, m0);
      OneStep(cmp, net, StepOf(r - 1).0, StepOf(r - 1).1, m0, Iterate(effect, r - 1, m0));
    }
  }

  /** All rounds together run the whole network; for other lengths they do nothing. */
  lemma AllRounds<V>(cmp: (V, V) -> bool, net: Network, effect: (nat, seq<V>) -> seq<V>, n: nat, m0: seq<V>)
    requires forall i, m :: effect(i, m) == Apply(cmp, Layers(net)(i), m)
    ensures Iterate(effect, Rounds(n), m0) == if PowerOfTwo(n) then Staged(cmp, net, n, m0) else m0
  {
    if PowerOfTwo(n) {
      RoundsAreStages(cmp, net, effect, Rounds(n), m0);
      StepInRange(Rounds(n), n);
    }
  }
}
