/**
 Lock-step programs: several threads run the same number of rounds over one shared array of cells.
 A thread that finishes a round adds one to a shared counter and then spins until the counter has
 reached (round + 1) * threads.  Every memory access is a step of its own, and the scheduler picks
 the next thread freely, so a statement about all schedules is a statement about all interleavings.

 This is the skeleton that the threaded sorts share: the bodies of their rounds differ, the counter
 does not.
 */
module Phases {

  /** What a thread does next inside a round: one access to a shared cell, a private step, or nothing more. */
  datatype Action<!L, !V> =
    | Load(cell: nat, receive: V -> L)
    | Store(cell: nat, value: V, next: L)
    | Local(next: L)
    | Halt

  /** The code of all threads: `act(r, t, l)` is what thread t does in round r with private state l. */
  datatype Program<!L, !V> = Program(
    threads: nat,
    rounds: nat,
    cells: nat,
    start: (nat, nat) -> L,
    act: (nat, nat, L) -> Action<L, V>)

  /**
   What the rounds are meant to do: `owner(r, c)` is the only thread that may touch cell c in round
   r, `effect(r, m)` is the memory after round r when it began with memory m, and `inv` is the
   proof outline of one thread, relating its private state to the memory at the start of the round
   and to the memory now.
   */
  datatype Outline<!L, !V> = Outline(
    owner: (nat, nat) -> nat,
    effect: (nat, seq<V>) -> seq<V>,
    inv: (nat, nat, L, seq<V>, seq<V>) -> bool)

  datatype Thread<L> = Working(round: nat, local: L) | Arrived(round: nat)

  datatype State<L, V> = State(mem: seq<V>, counter: nat, threads: seq<Thread<L>>)

  function Initial<L, V>(p: Program<L, V>, mem: seq<V>): State<L, V> {
    State(mem, 0, seq(p.threads, t requires 0 <= t < p.threads => Working(0, p.start(0, t))))
  }

  /** A thread is through once it has left the barrier of the last round. */
  predicate Exited<L, V>(p: Program<L, V>, th: Thread<L>) {
    th.Working? && th.round >= p.rounds
  }

  /** The cell that a thread accesses with its next step, if that step is a memory access. */
  predicate Accesses<L, V>(p: Program<L, V>, s: State<L, V>, t: nat, cell: nat)
    requires t < |s.threads|
  {
    s.threads[t].Working? && s.threads[t].round < p.rounds &&
    match p.act(s.threads[t].round, t, s.threads[t].local)
    case Load(c, _) => c == cell
    case Store(c, _, _) => c == cell
    case Local(_) => false
    case Halt => false
  }

  /** One step of thread t.  An access outside the memory has no meaning here and leaves the state alone. */
  function Step<L, V>(p: Program<L, V>, s: State<L, V>, t: nat): State<L, V> {
    if t >= |s.threads| then s else
    match s.threads[t]
    case Arrived(r) =>
      if s.counter < (r + 1) * p.threads then s
      else s.(threads := s.threads[t := Working(r + 1, p.start(r + 1, t))])
    case Working(r, l) =>
      if r >= p.rounds then s else
      match p.act(r, t, l)
      case Load(c, receive) =>
        if c >= |s.mem| then s else s.(threads := s.threads[t := Working(r, receive(s.mem[c]))])
      case Store(c, v, l') =>
        if c >= |s.mem| then s
        else s.(mem := s.mem[c := v], threads := s.threads[t := Working(r, l')])
      case Local(l') => s.(threads := s.threads[t := Working(r, l')])
      case Halt => s.(counter := s.counter + 1, threads := s.threads[t := Arrived(r)])
  }

  /** The state after the threads named by `schedule` have stepped in that order. */
  function Exec<L, V>(p: Program<L, V>, s: State<L, V>, schedule: seq<nat>): State<L, V> {
    if schedule == [] then s
    else Step(p, Exec(p, s, schedule[..|schedule| - 1]), schedule[|schedule| - 1])
  }

  /** The memory after the first r rounds, run one after the other with no interleaving. */
  function Iterate<V>(effect: (nat, seq<V>) -> seq<V>, r: nat, mem: seq<V>): seq<V> {
    if r == 0 then mem else effect(r - 1, Iterate(effect, r - 1, mem))
  }

  /** m and m' hold the same values in the cells that thread t owns in round r. */
  ghost predicate Agree<L, V>(p: Program<L, V>, o: Outline<L, V>, r: nat, t: nat, m: seq<V>, m': seq<V>)
    requires |m| == |m'| == p.cells
  {
    forall c :: 0 <= c < p.cells && o.owner(r, c) == t ==> m[c] == m'[c]
  }

  // ----- the obligations of a single thread, seen on its own -----

  /** What one action must do to keep the outline. */
  ghost predicate ActionOk<L(!new), V(!new)>(p: Program<L, V>, o: Outline<L, V>, r: nat, t: nat, l: L, m0: seq<V>,
      m: seq<V>)
    requires |m0| == |m| == p.cells
  {
    match p.act(r, t, l)
    case Load(c, receive) => c < p.cells && o.owner(r, c) == t && o.inv(r, t, receive(m[c]), m0, m)
    case Store(c, v, l') => c < p.cells && o.owner(r, c) == t && o.inv(r, t, l', m0, m[c := v])
    case Local(l') => o.inv(r, t, l', m0, m)
    case Halt => |o.effect(r, m0)| == p.cells && Agree(p, o, r, t, m, o.effect(r, m0))
  }

  ghost predicate StartOk<L(!new), V(!new)>(p: Program<L, V>, o: Outline<L, V>) {
    forall r, t, m0: seq<V>, m: seq<V> {:trigger o.inv(r, t, p.start(r, t), m0, m)} ::
      0 <= r < p.rounds && 0 <= t < p.threads && |m0| == |m| == p.cells && Agree(p, o, r, t, m, m0)
      ==> o.inv(r, t, p.start(r, t), m0, m)
  }

  ghost predicate StableOk<L(!new), V(!new)>(p: Program<L, V>, o: Outline<L, V>) {
    forall r, t, l, m0: seq<V>, m: seq<V>, m': seq<V> {:trigger o.inv(r, t, l, m0, m), o.inv(r, t, l, m0, m')} ::
      0 <= r < p.rounds && 0 <= t < p.threads && |m0| == |m| == |m'| == p.cells
      && o.inv(r, t, l, m0, m) && Agree(p, o, r, t, m, m')
      ==> o.inv(r, t, l, m0, m')
  }

  ghost predicate StepOk<L(!new), V(!new)>(p: Program<L, V>, o: Outline<L, V>) {
    forall r, t, l, m0: seq<V>, m: seq<V> {:trigger o.inv(r, t, l, m0, m)} ::
      0 <= r < p.rounds && 0 <= t < p.threads && |m0| == |m| == p.cells && o.inv(r, t, l, m0, m)
      ==> ActionOk(p, o, r, t, l, m0, m)
  }

  /** The outline is right for the program: every owner is a thread and every thread meets its obligations. */
  ghost predicate Sound<L(!new), V(!new)>(p: Program<L, V>, o: Outline<L, V>) {
    p.threads > 0
    && (forall r, c :: 0 <= r < p.rounds && 0 <= c < p.cells ==> 0 <= o.owner(r, c) < p.threads)
    && StartOk(p, o) && StableOk(p, o) && StepOk(p, o)
  }

  // ----- the counter -----

  /** How many times a thread has arrived at the barrier. */
  function Arrivals<L>(th: Thread<L>): nat {
    match th case Working(r, _) => r case Arrived(r) => r + 1
  }

  function Total<L>(ths: seq<Thread<L>>): nat {
    if ths == [] then 0 else Arrivals(ths[0]) + Total(ths[1..])
  }

  lemma {:induction false} TotalUpdate<L>(ths: seq<Thread<L>>, t: nat, th: Thread<L>)
    requires t < |ths|
    ensures Total(ths[t := th]) == Total(ths) - Arrivals(ths[t]) + Arrivals(th)
  {
    if t == 0 {
      assert ths[t := th][1..] == ths[1..];
    } else {
      assert ths[t := th][1..] == ths[1..][t - 1 := th];
      TotalUpdate(ths[1..], t - 1, th);
    }
  }

  /** How many threads are one arrival ahead of R. */
  function Ahead<L>(ths: seq<Thread<L>>, R: nat): nat {
    if ths == [] then 0 else (if Arrivals(ths[0]) == R + 1 then 1 else 0) + Ahead(ths[1..], R)
  }

  lemma {:induction false} AheadBound<L>(ths: seq<Thread<L>>, R: nat)
    ensures Ahead(ths, R) <= |ths|
    ensures Ahead(ths, R) == |ths| <==> forall t :: 0 <= t < |ths| ==> Arrivals(ths[t]) == R + 1
  {
    if ths != [] {
      AheadBound(ths[1..], R);
      assert forall t :: 1 <= t < |ths| ==> ths[t] == ths[1..][t - 1];
      assert forall t :: 0 <= t < |ths[1..]| ==> ths[1..][t] == ths[t + 1];
    }
  }

  lemma {:induction false} TotalSplit<L>(ths: seq<Thread<L>>, R: nat)
    requires forall t :: 0 <= t < |ths| ==> R <= Arrivals(ths[t]) <= R + 1
    ensures Total(ths) == R * |ths| + Ahead(ths, R)
  {
    if ths != [] {
      TotalSplit(ths[1..], R);
      assert R * |ths| == R * |ths[1..]| + R;
    }
  }

  /** If every thread has arrived R or R + 1 times, the total tells whether all have arrived R + 1 times. */
  lemma TotalBound<L>(ths: seq<Thread<L>>, R: nat)
    requires forall t :: 0 <= t < |ths| ==> R <= Arrivals(ths[t]) <= R + 1
    ensures R * |ths| <= Total(ths) <= (R + 1) * |ths|
    ensures Total(ths) == (R + 1) * |ths| <==> forall t :: 0 <= t < |ths| ==> Arrivals(ths[t]) == R + 1
  {
    TotalSplit(ths, R);
    AheadBound(ths, R);
    assert (R + 1) * |ths| == R * |ths| + |ths|;
  }

  lemma {:induction false} TotalZero<L>(ths: seq<Thread<L>>)
    requires forall t :: 0 <= t < |ths| ==> Arrivals(ths[t]) == 0
    ensures Total(ths) == 0
  {
    if ths != [] { TotalZero(ths[1..]); }
  }

  // ----- the global invariant -----

  /** Where one thread may be while the slowest thread is in round R. */
  ghost predicate ThreadOk<L(!new), V(!new)>(p: Program<L, V>, o: Outline<L, V>, R: nat, M: seq<V>, s: State<L, V>,
      t: nat)
    requires |M| == |s.mem| == p.cells && t < |s.threads|
  {
    match s.threads[t]
    case Working(r, l) => r == R && (R < p.rounds ==> o.inv(R, t, l, M, s.mem))
    case Arrived(r) =>
      && r < p.rounds
      && (r == R || r + 1 == R)
      && (r == R ==> |o.effect(R, M)| == p.cells && Agree(p, o, R, t, s.mem, o.effect(R, M)))
      && (r + 1 == R && R < p.rounds ==> Agree(p, o, R, t, s.mem, M))
  }

  /**
   The state of the whole program while round R is the oldest unfinished one.  M is the memory that
   R sequential rounds produce.
   */
  ghost predicate InRound<L(!new), V(!new)>(p: Program<L, V>, o: Outline<L, V>, m0: seq<V>, s: State<L, V>, R: nat) {
    var M := Iterate(o.effect, R, m0);
    && R <= p.rounds
    && |s.threads| == p.threads
    && |s.mem| == |M| == p.cells
    && s.counter == Total(s.threads)
    && R * p.threads <= s.counter < (R + 1) * p.threads
    && (forall t :: 0 <= t < p.threads ==> ThreadOk(p, o, R, M, s, t))
    && (R == p.rounds ==> s.mem == M)
  }

  lemma InitialInRound<L(!new), V(!new)>(p: Program<L, V>, o: Outline<L, V>, m0: seq<V>)
    requires Sound(p, o) && |m0| == p.cells
    ensures InRound(p, o, m0, Initial(p, m0), 0)
  {
    var s := Initial(p, m0);
    TotalZero(s.threads);
    forall t | 0 <= t < p.threads ensures ThreadOk(p, o, 0, m0, s, t) {
      if 0 < p.rounds {
        assert Agree(p, o, 0, t, m0, m0);
        assert o.inv(0, t, p.start(0, t), m0, m0);
      }
    }
  }

  /** A thread that works only on cells of its own leaves the obligations of the others alone. */
  lemma OthersUnaffected<L(!new), V(!new)>(p: Program<L, V>, o: Outline<L, V>, R: nat, M: seq<V>, s: State<L, V>,
      s': State<L, V>, t: nat, u: nat)
    requires Sound(p, o) && R < p.rounds
    requires |s.threads| == |s'.threads| == p.threads && |M| == |s.mem| == |s'.mem| == p.cells
    requires t < p.threads && u < p.threads && u != t
    requires s'.threads[u] == s.threads[u]
    requires forall c :: 0 <= c < p.cells && o.owner(R, c) != t ==> s'.mem[c] == s.mem[c]
    requires ThreadOk(p, o, R, M, s, u)
    ensures ThreadOk(p, o, R, M, s', u)
  {
    assert Agree(p, o, R, u, s.mem, s'.mem);
    match s.threads[u]
    case Working(r, l) =>
      assert o.inv(R, u, l, M, s.mem);
    case Arrived(r) =>
  }

  /** One step of any thread, seen from round R. */
  lemma StepInRound<L(!new), V(!new)>(p: Program<L, V>, o: Outline<L, V>, m0: seq<V>, s: State<L, V>, t: nat, R: nat)
    returns (R': nat)
    requires Sound(p, o) && InRound(p, o, m0, s, R)
    ensures InRound(p, o, m0, Step(p, s, t), R')
  {
    R' := R;
    var s' := Step(p, s, t);
    if s' != s {
      var M := Iterate(o.effect, R, m0);
      assert ThreadOk(p, o, R, M, s, t);
      match s.threads[t]
      case Arrived(r) =>
        R' := LeaveBarrier(p, o, m0, s, t, R);
      case Working(r, l) =>
        assert o.inv(R, t, l, M, s.mem);
        assert ActionOk(p, o, R, t, l, M, s.mem);
        if p.act(r, t, l).Halt? {
          R' := Arrive(p, o, m0, s, t, R);
        } else {
          TotalUpdate(s.threads, t, s'.threads[t]);
          forall u | 0 <= u < p.threads ensures ThreadOk(p, o, R, M, s', u) {
            if u != t { OthersUnaffected(p, o, R, M, s, s', t, u); }
          }
        }
    }
  }

  lemma LeaveBarrier<L(!new), V(!new)>(p: Program<L, V>, o: Outline<L, V>, m0: seq<V>, s: State<L, V>, t: nat, R: nat)
    returns (R': nat)
    requires Sound(p, o) && InRound(p, o, m0, s, R)
    requires t < p.threads && s.threads[t].Arrived? && Step(p, s, t) != s
    ensures InRound(p, o, m0, Step(p, s, t), R')
  {
    R' := R;
    var s' := Step(p, s, t);
    var M := Iterate(o.effect, R, m0);
    var r := s.threads[t].round;
    assert ThreadOk(p, o, R, M, s, t);
    assert r + 1 == R by {
      if r == R { assert false; }
    }
    TotalUpdate(s.threads, t, s'.threads[t]);
    forall u | 0 <= u < p.threads ensures ThreadOk(p, o, R, M, s', u) {
      if u != t {
        assert ThreadOk(p, o, R, M, s, u);
      } else if R < p.rounds {
        assert Agree(p, o, R, t, s.mem, M);
        assert o.inv(R, t, p.start(R, t), M, s.mem);
      }
    }
  }

  lemma Arrive<L(!new), V(!new)>(p: Program<L, V>, o: Outline<L, V>, m0: seq<V>, s: State<L, V>, t: nat, R: nat)
    returns (R': nat)
    requires Sound(p, o) && InRound(p, o, m0, s, R)
    requires t < p.threads && s.threads[t].Working? && R < p.rounds
    requires p.act(R, t, s.threads[t].local).Halt?
    ensures InRound(p, o, m0, Step(p, s, t), R')
  {
    var s' := Step(p, s, t);
    var M := Iterate(o.effect, R, m0);
    assert ThreadOk(p, o, R, M, s, t);
    assert o.inv(R, t, s.threads[t].local, M, s.mem);
    assert ActionOk(p, o, R, t, s.threads[t].local, M, s.mem);
    TotalUpdate(s.threads, t, s'.threads[t]);
    forall u | 0 <= u < p.threads ensures ThreadOk(p, o, R, M, s', u) {
      assert ThreadOk(p, o, R, M, s, u);
      if u != t { OthersUnaffected(p, o, R, M, s, s', t, u); }
    }
    forall u | 0 <= u < p.threads ensures R <= Arrivals(s'.threads[u]) <= R + 1 {
      assert ThreadOk(p, o, R, M, s', u);
    }
    TotalBound(s'.threads, R);
    if s'.counter < (R + 1) * p.threads {
      R' := R;
    } else {
      R' := R + 1;
      NextRound(p, o, m0, s', R);
    }
  }

  /** Once every thread has arrived, the memory is what the sequential round produces. */
  lemma NextRound<L(!new), V(!new)>(p: Program<L, V>, o: Outline<L, V>, m0: seq<V>, s: State<L, V>, R: nat)
    requires Sound(p, o) && R < p.rounds
    requires |s.threads| == p.threads && |s.mem| == p.cells && |Iterate(o.effect, R, m0)| == p.cells
    requires s.counter == Total(s.threads) == (R + 1) * p.threads
    requires forall u :: 0 <= u < p.threads ==> ThreadOk(p, o, R, Iterate(o.effect, R, m0), s, u)
    requires forall u :: 0 <= u < p.threads ==> Arrivals(s.threads[u]) == R + 1
    ensures InRound(p, o, m0, s, R + 1)
  {
    var M := Iterate(o.effect, R, m0);
    var M' := Iterate(o.effect, R + 1, m0);
    assert ThreadOk(p, o, R, M, s, 0);
    assert |M'| == p.cells;
    forall c | 0 <= c < p.cells ensures s.mem[c] == M'[c] {
      var u := o.owner(R, c);
      assert ThreadOk(p, o, R, M, s, u);
      assert Agree(p, o, R, u, s.mem, M');
    }
    assert s.mem == M';
    var R' := R + 1;
    forall u | 0 <= u < p.threads ensures ThreadOk(p, o, R', M', s, u) {
      assert ThreadOk(p, o, R, M, s, u);
    }
    assert (R + 1) * p.threads < (R + 2) * p.threads;
  }

  // ----- the theorems -----

  /** Every state of every interleaving lies within some round. */
  lemma {:induction false} ExecInRound<L(!new), V(!new)>(p: Program<L, V>, o: Outline<L, V>, m0: seq<V>,
      schedule: seq<nat>)
    returns (R: nat)
    requires Sound(p, o) && |m0| == p.cells
    ensures InRound(p, o, m0, Exec(p, Initial(p, m0), schedule), R)
  {
    if schedule == [] {
      InitialInRound(p, o, m0);
      R := 0;
    } else {
      var n := |schedule| - 1;
      R := ExecInRound(p, o, m0, schedule[..n]);
      R := StepInRound(p, o, m0, Exec(p, Initial(p, m0), schedule[..n]), schedule[n], R);
    }
  }

  /**
   Whatever the interleaving, the first thread to get through the last barrier finds the memory
   that the rounds produce when they are run one after the other.
   */
  lemma Deterministic<L(!new), V(!new)>(p: Program<L, V>, o: Outline<L, V>, m0: seq<V>, schedule: seq<nat>, t: nat)
    requires Sound(p, o) && |m0| == p.cells && t < p.threads
    ensures |Exec(p, Initial(p, m0), schedule).threads| == p.threads
    ensures Exited(p, Exec(p, Initial(p, m0), schedule).threads[t])
            ==> Exec(p, Initial(p, m0), schedule).mem == Iterate(o.effect, p.rounds, m0)
  {
    var R := ExecInRound(p, o, m0, schedule);
    var s := Exec(p, Initial(p, m0), schedule);
    assert ThreadOk(p, o, R, Iterate(o.effect, R, m0), s, t);
  }

  /** The next access of a thread is to a cell that it owns in the current round. */
  lemma AccessOwned<L(!new), V(!new)>(p: Program<L, V>, o: Outline<L, V>, m0: seq<V>, s: State<L, V>, R: nat, t: nat,
      c: nat)
    requires Sound(p, o) && InRound(p, o, m0, s, R) && t < p.threads
    requires Accesses(p, s, t, c)
    ensures c < p.cells && o.owner(R, c) == t
  {
    var M := Iterate(o.effect, R, m0);
    assert ThreadOk(p, o, R, M, s, t);
    assert o.inv(R, t, s.threads[t].local, M, s.mem);
    assert ActionOk(p, o, R, t, s.threads[t].local, M, s.mem);
  }

  /**
   If thread t is about to access cell c after a schedule, c is in bounds and no other thread is
   about to access it.
   */
  ghost predicate NoRace<L, V>(p: Program<L, V>, m0: seq<V>, schedule: seq<nat>, t: nat, c: nat)
    requires t < p.threads
  {
    var s := Exec(p, Initial(p, m0), schedule);
    && |s.threads| == p.threads && |s.mem| == p.cells
    && (Accesses(p, s, t, c) ==> c < p.cells && forall u :: 0 <= u < p.threads && u != t ==> !Accesses(p, s, u, c))
  }

  /** No two threads are ever about to access the same cell, and no access is out of bounds. */
  lemma RaceFree<L(!new), V(!new)>(p: Program<L, V>, o: Outline<L, V>, m0: seq<V>, schedule: seq<nat>, t: nat, c: nat)
    requires Sound(p, o) && |m0| == p.cells && t < p.threads
    ensures NoRace(p, m0, schedule, t, c)
  {
    var R := ExecInRound(p, o, m0, schedule);
    var s := Exec(p, Initial(p, m0), schedule);
    if Accesses(p, s, t, c) {
      AccessOwned(p, o, m0, s, R, t, c);
      forall u | 0 <= u < p.threads && Accesses(p, s, u, c) ensures u == t {
        AccessOwned(p, o, m0, s, R, u, c);
      }
    }
  }

  /** A thread that is spinning makes no progress; every other step changes something. */
  predicate Spinning<L, V>(p: Program<L, V>, s: State<L, V>, t: nat)
    requires t < |s.threads|
  {
    s.threads[t].Arrived? && s.counter < (s.threads[t].round + 1) * p.threads
  }

  /** A thread that spins has arrived in the current round. */
  lemma SpinsInRound<L(!new), V(!new)>(p: Program<L, V>, o: Outline<L, V>, m0: seq<V>, s: State<L, V>, R: nat, t: nat)
    requires InRound(p, o, m0, s, R) && t < p.threads && Spinning(p, s, t)
    ensures s.threads[t] == Arrived(R)
  {
    assert ThreadOk(p, o, R, Iterate(o.effect, R, m0), s, t);
    if s.threads[t].round + 1 == R { assert false; }
  }

  /** Somebody has not arrived in the current round. */
  lemma SomeoneWorks<L(!new), V(!new)>(p: Program<L, V>, o: Outline<L, V>, m0: seq<V>, s: State<L, V>,
      R: nat) returns (u: nat)
    requires InRound(p, o, m0, s, R)
    ensures u < p.threads && s.threads[u] != Arrived(R)
  {
    forall u | 0 <= u < p.threads ensures R <= Arrivals(s.threads[u]) <= R + 1 {
      assert ThreadOk(p, o, R, Iterate(o.effect, R, m0), s, u);
    }
    TotalBound(s.threads, R);
    u :| 0 <= u < p.threads && Arrivals(s.threads[u]) != R + 1;
  }

  /** No deadlock: while some thread has not exited, some thread has a step to take that is not a spin. */
  lemma SomeThreadProceeds<L(!new), V(!new)>(p: Program<L, V>, o: Outline<L, V>, m0: seq<V>,
      schedule: seq<nat>) returns (u: nat)
    requires Sound(p, o) && |m0| == p.cells
    requires exists t :: 0 <= t < |Exec(p, Initial(p, m0), schedule).threads|
                         && !Exited(p, Exec(p, Initial(p, m0), schedule).threads[t])
    ensures var s := Exec(p, Initial(p, m0), schedule);
            u < |s.threads| && !Exited(p, s.threads[u]) && !Spinning(p, s, u)
  {
    var R := ExecInRound(p, o, m0, schedule);
    var s := Exec(p, Initial(p, m0), schedule);
    var t :| 0 <= t < |s.threads| && !Exited(p, s.threads[t]);
    if !Spinning(p, s, t) {
      u := t;
    } else {
      SpinsInRound(p, o, m0, s, R, t);
      u := SomeoneWorks(p, o, m0, s, R);
      assert ThreadOk(p, o, R, Iterate(o.effect, R, m0), s, t);
      assert ThreadOk(p, o, R, Iterate(o.effect, R, m0), s, u);
      if Spinning(p, s, u) { SpinsInRound(p, o, m0, s, R, u); }
    }
  }
}
