/**
 Lock-step programs come to an end.  If every step inside a round brings a thread closer to the end
 of the round, the number of steps that change anything is bounded, whatever the interleaving, and a
 scheduler that never forgets a thread for good lets every thread return.
 */
module FairRuns {
  import opened Phases

  /** How many steps thread t has before it in round r, at most, before it ends the round. */
  type Steps<!L> = (nat, nat, L) -> nat

  /** Whatever thread t does next in round r brings it closer to the end of the round. */
  ghost predicate ActionShrinks<L(!new), V(!new)>(p: Program<L, V>, steps: Steps<L>, r: nat, t: nat, l: L, m: seq<V>) {
    var a := p.act(r, t, l);
    && (a.Load? && a.cell < |m| ==> steps(r, t, a.receive(m[a.cell])) < steps(r, t, l))
    && (a.Store? || a.Local? ==> steps(r, t, a.next) < steps(r, t, l))
  }

  ghost predicate Shrinks<L(!new), V(!new)>(p: Program<L, V>, o: Outline<L, V>, steps: Steps<L>) {
    forall r, t, l, m0: seq<V>, m: seq<V> {:trigger o.inv(r, t, l, m0, m)} ::
      0 <= r < p.rounds && 0 <= t < p.threads && |m0| == |m| == p.cells && o.inv(r, t, l, m0, m)
      ==> ActionShrinks(p, steps, r, t, l, m)
  }

  // ----- what is left to do -----

  /** The steps of thread t from the start of round r on: those in the rounds, to arrive and to leave. */
  function RoundsLeft<L, V>(p: Program<L, V>, steps: Steps<L>, t: nat, r: nat): nat
    decreases p.rounds - r
  {
    if r >= p.rounds then 0 else steps(r, t, p.start(r, t)) + 2 + RoundsLeft(p, steps, t, r + 1)
  }

  function ThreadLeft<L, V>(p: Program<L, V>, steps: Steps<L>, t: nat, th: Thread<L>): nat {
    match th
    case Working(r, l) => if r >= p.rounds then 0 else steps(r, t, l) + 2 + RoundsLeft(p, steps, t, r + 1)
    case Arrived(r) => 1 + RoundsLeft(p, steps, t, r + 1)
  }

  /** What is left for the first n threads. */
  function Left<L, V>(p: Program<L, V>, steps: Steps<L>, ths: seq<Thread<L>>, n: nat): nat
    requires n <= |ths|
  {
    if n == 0 then 0 else Left(p, steps, ths, n - 1) + ThreadLeft(p, steps, n - 1, ths[n - 1])
  }

  function AllLeft<L, V>(p: Program<L, V>, steps: Steps<L>, s: State<L, V>): nat {
    Left(p, steps, s.threads, |s.threads|)
  }

  lemma {:induction false} LeftUpdate<L, V>(p: Program<L, V>, steps: Steps<L>, ths: seq<Thread<L>>, t: nat,
      th: Thread<L>, n: nat)
    requires t < |ths| && n <= |ths|
    ensures Left(p, steps, ths[t := th], n) ==
            Left(p, steps, ths, n) + if t < n then ThreadLeft(p, steps, t, th) - ThreadLeft(p, steps, t, ths[t]) else 0
  {
    if n > 0 { LeftUpdate(p, steps, ths, t, th, n - 1); }
  }

  /** Thread t is there, has not returned, and does not wait at the barrier. */
  predicate CanMove<L, V>(p: Program<L, V>, s: State<L, V>, t: nat) {
    t < |s.threads| && !Exited(p, s.threads[t]) && !Spinning(p, s, t)
  }

  /** The access of an action is in bounds. */
  predicate InBounds<L, V>(a: Action<L, V>, cells: nat) {
    (a.Load? ==> a.cell < cells) && (a.Store? ==> a.cell < cells)
  }

  /** What a step does to the thread that takes it. */
  lemma ThreadShrinks<L(!new), V(!new)>(p: Program<L, V>, steps: Steps<L>, s: State<L, V>, t: nat)
    requires t < |s.threads| && CanMove(p, s, t)
    requires var th := s.threads[t];
             th.Working? ==>
               && InBounds(p.act(th.round, t, th.local), |s.mem|)
               && ActionShrinks(p, steps, th.round, t, th.local, s.mem)
    ensures |Step(p, s, t).threads| == |s.threads|
    ensures var th := Step(p, s, t).threads[t];
            && Step(p, s, t).threads == s.threads[t := th]
            && ThreadLeft(p, steps, t, th) < ThreadLeft(p, steps, t, s.threads[t])
  {
  }

  /** A step changes nothing, or there is less left to do. */
  lemma StepShrinks<L(!new), V(!new)>(p: Program<L, V>, o: Outline<L, V>, steps: Steps<L>, m0: seq<V>, s: State<L, V>,
      t: nat, R: nat)
    requires Sound(p, o) && Shrinks(p, o, steps) && InRound(p, o, m0, s, R)
    ensures if CanMove(p, s, t) then AllLeft(p, steps, Step(p, s, t)) < AllLeft(p, steps, s) else Step(p, s, t) == s
  {
    if CanMove(p, s, t) {
      var M := Iterate(o.effect, R, m0);
      assert ThreadOk(p, o, R, M, s, t);
      if s.threads[t].Working? {
        var l := s.threads[t].local;
        assert o.inv(R, t, l, M, s.mem);
        assert ActionShrinks(p, steps, R, t, l, s.mem);
        assert InBounds(p.act(R, t, l), |s.mem|) by { assert ActionOk(p, o, R, t, l, M, s.mem); }
      }
      ThreadShrinks(p, steps, s, t);
      LeftUpdate(p, steps, s.threads, t, Step(p, s, t).threads[t], |s.threads|);
    }
  }

  // ----- every run makes a bounded number of moves -----

  /** How many steps of a schedule are neither spins nor steps of threads that have returned. */
  function Moves<L, V>(p: Program<L, V>, s: State<L, V>, schedule: seq<nat>): nat {
    if schedule == [] then 0 else
    var before := schedule[..|schedule| - 1];
    Moves(p, s, before) + if CanMove(p, Exec(p, s, before), schedule[|schedule| - 1]) then 1 else 0
  }

  lemma {:induction false} MovesBounded<L(!new), V(!new)>(p: Program<L, V>, o: Outline<L, V>, steps: Steps<L>,
      m0: seq<V>, schedule: seq<nat>)
    requires Sound(p, o) && Shrinks(p, o, steps) && |m0| == p.cells
    ensures Moves(p, Initial(p, m0), schedule) + AllLeft(p, steps, Exec(p, Initial(p, m0), schedule))
            <= AllLeft(p, steps, Initial(p, m0))
  {
    if schedule != [] {
      var before, t := schedule[..|schedule| - 1], schedule[|schedule| - 1];
      MovesBounded(p, o, steps, m0, before);
      var R := ExecInRound(p, o, m0, before);
      var s := Exec(p, Initial(p, m0), before);
      StepShrinks(p, o, steps, m0, s, t, R);
    }
  }

  /** No deadlock: while some thread has not returned, some thread has a step that changes the state. */
  lemma SomeThreadMoves<L(!new), V(!new)>(p: Program<L, V>, o: Outline<L, V>, steps: Steps<L>, m0: seq<V>,
      schedule: seq<nat>)
    returns (u: nat)
    requires Sound(p, o) && Shrinks(p, o, steps) && |m0| == p.cells
    requires !AllExited(p, Exec(p, Initial(p, m0), schedule))
    ensures u < p.threads && var s := Exec(p, Initial(p, m0), schedule); CanMove(p, s, u) && Step(p, s, u) != s
  {
    var R := ExecInRound(p, o, m0, schedule);
    u := SomeThreadProceeds(p, o, m0, schedule);
    StepShrinks(p, o, steps, m0, Exec(p, Initial(p, m0), schedule), u, R);
  }

  // ----- fair runs -----

  ghost predicate AllExited<L, V>(p: Program<L, V>, s: State<L, V>) {
    forall t :: 0 <= t < |s.threads| ==> Exited(p, s.threads[t])
  }

  /** The scheduler comes back to every thread again and again. */
  ghost predicate Fair(f: nat -> nat, threads: nat) {
    forall t: nat, n: nat :: t < threads ==> ComesUp(f, t, n)
  }

  /** Thread t steps at time n or later. */
  ghost predicate ComesUp(f: nat -> nat, t: nat, n: nat) {
    exists i: nat :: i >= n && f(i) == t
  }

  /** The threads that step before time n. */
  function Prefix(f: nat -> nat, n: nat): (s: seq<nat>)
    ensures |s| == n
  {
    seq(n, i requires 0 <= i < n => f(i))
  }

  /** The state at time n. */
  function At<L, V>(p: Program<L, V>, m0: seq<V>, f: nat -> nat, n: nat): State<L, V> {
    Exec(p, Initial(p, m0), Prefix(f, n))
  }

  lemma AtNext<L, V>(p: Program<L, V>, m0: seq<V>, f: nat -> nat, n: nat)
    ensures At(p, m0, f, n + 1) == Step(p, At(p, m0, f, n), f(n))
  {
    assert Prefix(f, n + 1)[..n] == Prefix(f, n);
  }

  /** If thread u, which can move, comes up at time i, there is less left to do by then. */
  lemma {:induction false} MovesBy<L(!new), V(!new)>(p: Program<L, V>, o: Outline<L, V>, steps: Steps<L>, m0: seq<V>,
      f: nat -> nat, n: nat, u: nat, i: nat) returns (n': nat)
    requires Sound(p, o) && Shrinks(p, o, steps) && |m0| == p.cells
    requires n <= i && f(i) == u && CanMove(p, At(p, m0, f, n), u)
    ensures n' > n && AllLeft(p, steps, At(p, m0, f, n')) < AllLeft(p, steps, At(p, m0, f, n))
    decreases i - n
  {
    var s := At(p, m0, f, n);
    var R := ExecInRound(p, o, m0, Prefix(f, n));
    AtNext(p, m0, f, n);
    if CanMove(p, s, f(n)) {
      StepShrinks(p, o, steps, m0, s, f(n), R);
      n' := n + 1;
    } else {
      StepShrinks(p, o, steps, m0, s, f(n), R);
      n' := MovesBy(p, o, steps, m0, f, n + 1, u, i);
    }
  }

  /** In every fair run there is a time at which every thread has returned. */
  lemma {:induction false} FairRunsEnd<L(!new), V(!new)>(p: Program<L, V>, o: Outline<L, V>, steps: Steps<L>,
      m0: seq<V>, f: nat -> nat, n: nat) returns (end: nat)
    requires Sound(p, o) && Shrinks(p, o, steps) && |m0| == p.cells && Fair(f, p.threads)
    ensures AllExited(p, At(p, m0, f, end))
    decreases AllLeft(p, steps, At(p, m0, f, n))
  {
    if AllExited(p, At(p, m0, f, n)) {
      end := n;
    } else {
      var u := SomeThreadMoves(p, o, steps, m0, Prefix(f, n));
      assert ComesUp(f, u, n);
      var i: nat :| i >= n && f(i) == u;
      var n' := MovesBy(p, o, steps, m0, f, n, u, i);
      end := FairRunsEnd(p, o, steps, m0, f, n');
    }
  }

  /** All threads have returned, and left this in the memory. */
  ghost predicate Returned<L, V>(p: Program<L, V>, mem: seq<V>, s: State<L, V>) {
    |s.threads| == p.threads && AllExited(p, s) && s.mem == mem
  }

  /** Once all threads have returned nothing changes any more. */
  lemma {:induction false} StaysFinished<L, V>(p: Program<L, V>, m0: seq<V>, f: nat -> nat, n: nat, n': nat)
    requires AllExited(p, At(p, m0, f, n)) && n <= n'
    ensures At(p, m0, f, n') == At(p, m0, f, n)
  {
    if n < n' {
      StaysFinished(p, m0, f, n, n' - 1);
      AtNext(p, m0, f, n' - 1);
    }
  }

  /**
   In every fair run all threads return, and from then on memory holds what the rounds make of it
   one after the other.
   */
  lemma FairRunsFinish<L(!new), V(!new)>(p: Program<L, V>, o: Outline<L, V>, steps: Steps<L>, m0: seq<V>, f: nat -> nat)
    returns (end: nat)
    requires Sound(p, o) && Shrinks(p, o, steps) && |m0| == p.cells && Fair(f, p.threads)
    ensures forall n: nat :: n >= end ==> Returned(p, Iterate(o.effect, p.rounds, m0), At(p, m0, f, n))
  {
    end := FairRunsEnd(p, o, steps, m0, f, 0);
    Deterministic(p, o, m0, Prefix(f, end), 0);
    forall n: nat | n >= end ensures At(p, m0, f, n) == At(p, m0, f, end) { StaysFinished(p, m0, f, end, n); }
  }
}
