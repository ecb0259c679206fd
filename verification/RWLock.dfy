/**
 RWLock: a lock type and a share count, each changed by one atomic access at a time, by any number of
 threads in any interleaving.
 */
module RWLock {
  import opened Tally

  /** mShareCount is a 32-bit counter. */
  const SHARES: nat := 0x1_0000_0000

  const LOCK_TRY_WRITE_BIT: nat := 3

  /** What a thread calls next, when it holds nothing. */
  datatype Call = LockShared | Lock | TryLockShared | TryLock

  /**
   Where a thread is in the code: each point is followed by one atomic access.  `spin` is set if the
   access is part of a blocking call, which tries again when the attempt fails.
   */
  datatype Point =
    | Idle
    | AddShare(spin: bool)
    | TestType(spin: bool)
    | DropShare(spin: bool)
    | Reading
    | TakeType(spin: bool)
    | TestShare(spin: bool)
    | DropType(spin: bool)
    | Writing

  datatype State = State(lockType: nat, shareCount: nat, threads: seq<Point>)

  function Initial(threads: nat): State {
    State(0, 0, seq(threads, _ => Idle))
  }

  /** One atomic access: where the thread goes, and what the two fields become. */
  datatype Access = Access(point: Point, lockType: nat, shareCount: nat)

  /** The access that follows point p; `call` is looked at only when the thread is idle. */
  function Perform(m: nat, p: Point, lockType: nat, shareCount: nat, call: Call): Access
    requires m > 0
  {
    match p
    case Idle =>
      var first := match call
        case LockShared => AddShare(true)
        case TryLockShared => AddShare(false)
        case Lock => TakeType(true)
        case TryLock => TakeType(false);
      Access(first, lockType, shareCount)
    case AddShare(spin) => Access(TestType(spin), lockType, Add(shareCount, m))
    case TestType(spin) => Access(if lockType == 0 then Reading else DropShare(spin), lockType, shareCount)
    case DropShare(spin) => Access(if spin then AddShare(true) else Idle, lockType, Subtract(shareCount, m))
    case Reading => Access(Idle, lockType, Subtract(shareCount, m))
    case TakeType(spin) =>
      if lockType == 0 then Access(TestShare(spin), LOCK_TRY_WRITE_BIT, shareCount)
      else Access(if spin then TakeType(true) else Idle, lockType, shareCount)
    case TestShare(spin) => Access(if shareCount == 0 then Writing else DropType(spin), lockType, shareCount)
    case DropType(spin) => Access(if spin then TakeType(true) else Idle, 0, shareCount)
    case Writing => Access(Idle, 0, shareCount)
  }

  /** Thread t moves. */
  function Step(m: nat, s: State, t: nat, call: Call): State
    requires m > 0
  {
    if t >= |s.threads| then s else
    var a := Perform(m, s.threads[t], s.lockType, s.shareCount, call);
    State(a.lockType, a.shareCount, s.threads[t := a.point])
  }

  /** A run: which thread moves, and what it calls if it is idle. */
  function Exec(m: nat, s: State, run: seq<(nat, Call)>): State
    requires m > 0
  {
    if run == [] then s else
    var last := run[|run| - 1];
    Step(m, Exec(m, s, run[..|run| - 1]), last.0, last.1)
  }

  // ----- what every step keeps -----

  /** The thread has counted itself as a reader: it holds the lock or is in transit. */
  predicate Sharing(p: Point) {
    p.TestType? || p.DropShare? || p.Reading?
  }

  /** The thread has set the lock type: it holds the lock or is in transit. */
  predicate Claiming(p: Point) {
    p.TestShare? || p.DropType? || p.Writing?
  }

  predicate IsReading(p: Point) {
    p.Reading?
  }

  predicate IsWriting(p: Point) {
    p.Writing?
  }

  /** The fields against the number of threads that claim the lock type and that share. */
  ghost predicate Fields(m: nat, lockType: nat, shareCount: nat, claims: nat, shares: nat)
    requires m > 0
  {
    && lockType in {0, LOCK_TRY_WRITE_BIT}
    && claims == (if lockType == 0 then 0 else 1)
    && shareCount == Wrapped(shares, m)
  }

  ghost predicate Inv(m: nat, s: State)
    requires m > 0
  {
    Fields(m, s.lockType, s.shareCount, Count(Claiming, s.threads), Count(Sharing, s.threads))
  }

  /** At most one writer, and no reader beside it. */
  ghost predicate Exclusive(s: State) {
    Count(IsWriting, s.threads) == 0 || (Count(IsWriting, s.threads) == 1 && Count(IsReading, s.threads) == 0)
  }

  /** An access keeps the fields right, given how many of the other threads claim and share. */
  lemma AccessKeeps(m: nat, p: Point, lockType: nat, shareCount: nat, call: Call, claims: nat, shares: nat)
    requires m > 0 && Fields(m, lockType, shareCount, claims + One(Claiming(p)), shares + One(Sharing(p)))
    ensures var a := Perform(m, p, lockType, shareCount, call);
            Fields(m, a.lockType, a.shareCount, claims + One(Claiming(a.point)), shares + One(Sharing(a.point)))
  {
    WrappedNext(shares, m);
  }

  lemma InvStep(m: nat, s: State, t: nat, call: Call)
    requires m > 0 && Inv(m, s)
    ensures Inv(m, Step(m, s, t, call))
  {
    if t < |s.threads| {
      var p, p' := s.threads[t], Step(m, s, t, call).threads[t];
      CountMoved(Claiming, s.threads, t, p');
      CountMoved(Sharing, s.threads, t, p');
      AccessKeeps(m, p, s.lockType, s.shareCount, call,
                  Count(Claiming, s.threads) - One(Claiming(p)), Count(Sharing, s.threads) - One(Sharing(p)));
    }
  }

  lemma InvInitial(m: nat, threads: nat)
    requires m > 0
    ensures Inv(m, Initial(threads))
  {
    CountNone(Claiming, Initial(threads).threads);
    CountNone(Sharing, Initial(threads).threads);
  }

  lemma {:induction false} Reachable(m: nat, threads: nat, run: seq<(nat, Call)>)
    requires m > 0
    ensures var s := Exec(m, Initial(threads), run); |s.threads| == threads && Inv(m, s)
  {
    if run == [] {
      InvInitial(m, threads);
    } else {
      var last := run[|run| - 1];
      Reachable(m, threads, run[..|run| - 1]);
      InvStep(m, Exec(m, Initial(threads), run[..|run| - 1]), last.0, last.1);
    }
  }

  // ----- mutual exclusion -----

  /** A step keeps mutual exclusion as long as the share count cannot wrap around to 0. */
  lemma ExclusiveStep(m: nat, s: State, t: nat, call: Call)
    requires m > 0 && Inv(m, s) && Exclusive(s) && |s.threads| <= m
    ensures Exclusive(Step(m, s, t, call))
  {
    if t < |s.threads| {
      var p, p' := s.threads[t], Step(m, s, t, call).threads[t];
      CountUpdate(IsWriting, s.threads, t, p');
      CountUpdate(IsReading, s.threads, t, p');
      CountFewer(IsWriting, Claiming, s.threads);
      CountFewer(IsReading, Sharing, s.threads);
      if p.TestShare? && p'.Writing? {
        CountWithout(Sharing, s.threads, t);
        WrappedPlus(0, Count(Sharing, s.threads), m);
        CountFewerWithout(IsWriting, Claiming, s.threads, t);
      }
    }
  }

  lemma {:induction false} ExclusiveReachable(m: nat, threads: nat, run: seq<(nat, Call)>)
    requires m > 0 && threads <= m
    ensures Exclusive(Exec(m, Initial(threads), run))
  {
    if run == [] {
      CountNone(IsWriting, Initial(threads).threads);
    } else {
      var last := run[|run| - 1];
      Reachable(m, threads, run[..|run| - 1]);
      ExclusiveReachable(m, threads, run[..|run| - 1]);
      ExclusiveStep(m, Exec(m, Initial(threads), run[..|run| - 1]), last.0, last.1);
    }
  }

  // ----- with one thread more, the count can wrap around -----

  lemma ExecOne(m: nat, s: State, run: seq<(nat, Call)>, t: nat, call: Call)
    requires m > 0
    ensures Exec(m, s, run + [(t, call)]) == Step(m, Exec(m, s, run), t, call)
  {
    assert (run + [(t, call)])[..|run|] == run;
  }

  /** k threads hold the lock as readers, and the others are idle. */
  function Readers(m: nat, threads: nat, k: nat): State
    requires m > 0 && k <= threads
  {
    State(0, Wrapped(k, m), seq(threads, t => if t < k then Reading else Idle))
  }

  /** One more thread calls try_lock_shared. */
  lemma OneMoreReader(m: nat, threads: nat, t: nat)
    requires m > 0 && t < threads
    ensures var s1 := Step(m, Readers(m, threads, t), t, TryLockShared);
            Step(m, Step(m, s1, t, TryLockShared), t, TryLockShared) == Readers(m, threads, t + 1)
  {
    var s1 := Step(m, Readers(m, threads, t), t, TryLockShared);
    var s2 := Step(m, s1, t, TryLockShared);
    var s3 := Step(m, s2, t, TryLockShared);
    assert s1.threads[t] == AddShare(false) && s2.threads[t] == TestType(false);
    assert s3.threads == Readers(m, threads, t + 1).threads;
  }

  /** The first k threads call try_lock_shared, one after the other. */
  lemma {:induction false} ReadersEnter(m: nat, threads: nat, k: nat) returns (run: seq<(nat, Call)>)
    requires m > 0 && k <= threads
    ensures Exec(m, Initial(threads), run) == Readers(m, threads, k)
  {
    run := [];
    if k > 0 {
      var t := k - 1;
      var before := ReadersEnter(m, threads, t);
      OneMoreReader(m, threads, t);
      ExecOne(m, Initial(threads), before, t, TryLockShared);
      var run1 := before + [(t, TryLockShared)];
      ExecOne(m, Initial(threads), run1, t, TryLockShared);
      var run2 := run1 + [(t, TryLockShared)];
      ExecOne(m, Initial(threads), run2, t, TryLockShared);
      run := run2 + [(t, TryLockShared)];
    }
  }

  /** m readers make the count 0 again, and a writer joins them. */
  lemma WriterJoins(m: nat, threads: nat) returns (run: seq<(nat, Call)>)
    requires 0 < m < threads
    ensures !Exclusive(Exec(m, Initial(threads), run))
  {
    var before := ReadersEnter(m, threads, m);
    var s := Readers(m, threads, m);
    WrappedPlus(0, m - 1, m);
    WrappedNext(m - 1, m);
    var s1 := Step(m, s, m, TryLock);
    var s2 := Step(m, s1, m, TryLock);
    var s3 := Step(m, s2, m, TryLock);
    ExecOne(m, Initial(threads), before, m, TryLock);
    var run1 := before + [(m, TryLock)];
    ExecOne(m, Initial(threads), run1, m, TryLock);
    var run2 := run1 + [(m, TryLock)];
    ExecOne(m, Initial(threads), run2, m, TryLock);
    run := run2 + [(m, TryLock)];
    assert s3.threads[m] == Writing && s3.threads[0] == Reading;
    CountSome(IsWriting, s3.threads, m);
    CountSome(IsReading, s3.threads, 0);
  }

  /**
   Under any mix of calls by any number of threads there is at most one writer and no reader beside
   it, exactly as long as there are no more threads than the share count can tell apart.
   */
  lemma MutualExclusion(m: nat, threads: nat)
    requires m > 0
    ensures (forall run :: Exclusive(Exec(m, Initial(threads), run))) <==> threads <= m
  {
    if threads <= m {
      forall run ensures Exclusive(Exec(m, Initial(threads), run)) { ExclusiveReachable(m, threads, run); }
    } else {
      var run := WriterJoins(m, threads);
    }
  }

  lemma MutualExclusionAsBuilt(threads: nat)
    ensures (forall run :: Exclusive(Exec(SHARES, Initial(threads), run))) <==> threads <= SHARES
  {
    MutualExclusion(SHARES, threads);
  }

  /** Once every thread has returned from what it called, both fields are as they were at first. */
  lemma LeavesNoTrace(m: nat, threads: nat, run: seq<(nat, Call)>)
    requires m > 0
    requires forall t :: 0 <= t < threads && t < |Exec(m, Initial(threads), run).threads| ==>
               Exec(m, Initial(threads), run).threads[t] == Idle
    ensures Exec(m, Initial(threads), run) == Initial(threads)
  {
    Reachable(m, threads, run);
    var s := Exec(m, Initial(threads), run);
    CountNone(Claiming, s.threads);
    CountNone(Sharing, s.threads);
    assert s.threads == Initial(threads).threads;
  }
}
