/**
 What a thread calls on a FairRWLock, and what it gets.
 */
module FairRWLockCalls {
  import opened Basics
  import opened Tally
  import opened Attempts
  import opened FairRWLock

  function HeldAt(p: Point): Hold {
    if p.Reading? then Shared else if p.Writing? then Exclusively else NotHeld
  }

  /** What thread t has called last in a run, and what has come of it. */
  function AttemptOf(m: nat, threads: nat, run: seq<(nat, Call)>, t: nat): Attempt<Call>
    requires m > 0
  {
    if run == [] then Attempt(None, NotHeld, 0) else
    var before, last := run[..|run| - 1], run[|run| - 1];
    var s, s' := Exec(m, Initial(threads), before), Exec(m, Initial(threads), run);
    if last.0 != t || t >= |s.threads| || t >= |s'.threads| then AttemptOf(m, threads, before, t)
    else After(AttemptOf(m, threads, before, t), s.threads[t].Idle?, last.1, HeldAt(s'.threads[t]))
  }

  /** The points of lock_shared and of lock before they return. */
  predicate InLockShared(p: Point) {
    p.DrawShared? || p.WaitShared? || p.CountShare? || p.SpinType? || p.PassShared?
  }

  predicate InLock(p: Point) {
    p.DrawExclusive? || p.WaitExclusive? || p.SpinTake? || p.SpinShare?
  }

  /** How many steps a thread has taken in a try call. */
  function StepsInTry(p: Point): nat {
    if p.AddShare? || p.TakeType? then 1
    else if p.TestType? || p.TestShare? then 2
    else if p.DropShare? || p.DropType? then 3
    else 0
  }

  /** Where a thread can be, given what it has called and what has come of it. */
  predicate Serves(a: Attempt<Call>, p: Point) {
    && (p.Idle? ==> (a.call == Some(LockShared) ==> a.hold.Shared?) && (a.call == Some(Lock) ==> a.hold.Exclusively?))
    && (InLockShared(p) ==> a.call == Some(LockShared))
    && (InLock(p) ==> a.call == Some(Lock))
    && (StepsInTry(p) > 0 ==>
          && a.call == Some(if p.AddShare? || p.TestType? || p.DropShare? then TryLockShared else TryLock)
          && a.steps == StepsInTry(p))
    && (p.Reading? ==> a.call in {Some(LockShared), Some(TryLockShared)} && a.hold.Shared?)
    && (p.Writing? ==> a.call == Some(if p.byTicket then Lock else TryLock) && a.hold.Exclusively?)
    && (p.PassTurn? ==> a.call == Some(Lock) && a.hold.Exclusively?)
  }

  lemma ServesStep(m: nat, a: Attempt<Call>, p: Point, f: Fields, call: Call)
    requires m > 0 && Serves(a, p) && (p.Writing? ==> (p.byTicket <==> f.lockType == LOCK_WRITE_BIT))
    ensures var p' := Perform(m, p, f, call).point;
            Serves(After(a, p.Idle?, call, HeldAt(p')), p')
  {
  }

  /** The lock type tells which kind of call a writer has made. */
  lemma WriterShows(m: nat, s: State, t: nat)
    requires m > 0 && LockInv(m, s) && t < |s.threads| && s.threads[t].Writing?
    ensures s.threads[t].byTicket <==> s.fields.lockType == LOCK_WRITE_BIT
  {
    CountMoved(Claiming, s.threads, t, s.threads[t]);
    CountMoved(Trying, s.threads, t, s.threads[t]);
  }

  /** In every run each thread is served as it has called. */
  lemma {:induction false} ServedAsCalled(m: nat, threads: nat, run: seq<(nat, Call)>, t: nat)
    requires m > 0 && t < threads
    ensures var s := Exec(m, Initial(threads), run);
            |s.threads| == threads && Serves(AttemptOf(m, threads, run, t), s.threads[t])
  {
    LockReachable(m, threads, run);
    if run != [] {
      var before, last := run[..|run| - 1], run[|run| - 1];
      LockReachable(m, threads, before);
      ServedAsCalled(m, threads, before, t);
      var s := Exec(m, Initial(threads), before);
      if s.threads[t].Writing? { WriterShows(m, s, t); }
      ServesStep(m, AttemptOf(m, threads, before, t), s.threads[t], s.fields, last.1);
    }
  }

  /**
   Whoever reads has called for shared access, and whoever writes for exclusive access; a blocking call
   only returns after the thread has held the lock that way; a try call ends within four steps of the
   thread's own, the call included.
   */
  lemma CallsGetWhatTheyAsk(m: nat, threads: nat, run: seq<(nat, Call)>, t: nat)
    requires m > 0 && t < threads
    ensures var (a, s) := (AttemptOf(m, threads, run, t), Exec(m, Initial(threads), run));
            && t < |s.threads|
            && (MayRead(s.threads[t]) ==> a.call in {Some(LockShared), Some(TryLockShared)})
            && (MayWrite(s.threads[t]) ==> a.call in {Some(Lock), Some(TryLock)})
            && (s.threads[t].Idle? && a.call == Some(LockShared) ==> a.hold.Shared?)
            && (s.threads[t].Idle? && a.call == Some(Lock) ==> a.hold.Exclusively?)
            && (a.call in {Some(TryLockShared), Some(TryLock)} && a.steps >= 4 ==>
                  s.threads[t].Idle? || HeldAt(s.threads[t]) != NotHeld)
  {
    ServedAsCalled(m, threads, run, t);
  }

  /** k steps of thread t. */
  function Steps(m: nat, s: State, t: nat, call: Call, k: nat): State
    requires m > 0
  {
    if k == 0 then s else Step(m, Steps(m, s, t, call, k - 1), t, call)
  }

  /** Nobody is in a call, holds the lock or waits. */
  ghost predicate Quiet(s: State) {
    forall u {:trigger s.threads[u]} :: 0 <= u < |s.threads| ==> s.threads[u].Idle?
  }

  lemma NoneOutstanding(m: nat, s: State, n: nat)
    requires m > 0 && TicketInv(m, s) && Quiet(s) && n < |s.drawn|
    ensures n < s.passes
  {
    assert TicketOk(s, n);
  }

  /** Then both ticket counters show the same, and the lock is free. */
  lemma QuietFields(m: nat, s: State)
    requires m > 0 && LockInv(m, s) && TicketInv(m, s) && Quiet(s)
    ensures s.fields.lockType == 0 && s.fields.shareCount == 0 && s.fields.nextLockId == s.fields.currentLockId
  {
    CountNone(Claiming, s.threads);
    CountNone(Trying, s.threads);
    CountNone(Sharing, s.threads);
    if s.drawn != [] { NoneOutstanding(m, s, |s.drawn| - 1); }
  }

  /** k steps of a thread while no other moves. */
  function Alone(m: nat, p: Point, f: Fields, call: Call, k: nat): Access
    requires m > 0
  {
    if k == 0 then Access(p, f) else var a := Alone(m, p, f, call, k - 1); Perform(m, a.point, a.fields, call)
  }

  lemma {:induction false} StepsAlone(m: nat, s: State, t: nat, call: Call, k: nat)
    requires m > 0 && t < |s.threads| == |s.tickets|
    ensures var s' := Steps(m, s, t, call, k);
            && |s'.threads| == |s'.tickets| == |s.threads|
            && Access(s'.threads[t], s'.fields) == Alone(m, s.threads[t], s.fields, call, k)
  {
    if k > 0 { StepsAlone(m, s, t, call, k - 1); }
  }

  /** The number of steps that a call takes when nobody is in its way, and where it ends. */
  function StepsNeeded(call: Call): nat {
    match call case LockShared => 6 case Lock => 5 case TryLockShared => 3 case TryLock => 3
  }

  function Granted(call: Call): Point {
    match call
    case LockShared => Reading
    case TryLockShared => Reading
    case Lock => Writing(true)
    case TryLock => Writing(false)
  }

  lemma AloneGranted(m: nat, f: Fields, call: Call)
    requires m > 0 && f.lockType == 0 && f.shareCount == 0 && f.nextLockId == f.currentLockId
    ensures Alone(m, Idle, f, call, StepsNeeded(call)).point == Granted(call)
  {
    var a1 := AloneNext(m, f, call, 0, Access(Idle, f));
    var a2 := AloneNext(m, f, call, 1, a1);
    var a3 := AloneNext(m, f, call, 2, a2);
    if call.LockShared? || call.Lock? {
      var a4 := AloneNext(m, f, call, 3, a3);
      var a5 := AloneNext(m, f, call, 4, a4);
      var a6 := AloneNext(m, f, call, 5, a5);
    }
  }

  /** One step more. */
  lemma AloneNext(m: nat, f: Fields, call: Call, k: nat, a: Access) returns (a': Access)
    requires m > 0 && Alone(m, Idle, f, call, k) == a
    ensures a' == Perform(m, a.point, a.fields, call) == Alone(m, Idle, f, call, k + 1)
  {
    a' := Perform(m, a.point, a.fields, call);
  }

  /** When no other thread is in a call or holds the lock, every call gets the lock, in a fixed number of steps. */
  lemma Uncontended(m: nat, s: State, t: nat, call: Call)
    requires m > 0 && LockInv(m, s) && TicketInv(m, s) && Quiet(s) && t < |s.threads|
    ensures var s' := Steps(m, s, t, call, StepsNeeded(call));
            |s'.threads| == |s.threads| && s'.threads[t] == Granted(call)
  {
    QuietFields(m, s);
    StepsAlone(m, s, t, call, StepsNeeded(call));
    AloneGranted(m, s.fields, call);
  }

  /** A try call gives up. */
  predicate TurnsBack(p: Point, p': Point) {
    (p.TestType? && p'.DropShare?) || (p.TestShare? && p'.DropType?) || (p.TakeType? && !p'.TestShare?)
  }

  /** A try call only gives up because of another thread that shares or has set the lock type. */
  lemma RefusedByAnother(m: nat, s: State, t: nat, call: Call) returns (u: nat)
    requires m > 0 && LockInv(m, s) && t < |s.threads|
    requires TurnsBack(s.threads[t], Step(m, s, t, call).threads[t])
    ensures u < |s.threads| && u != t
    ensures if s.threads[t].TestShare? then Sharing(s.threads[u]) else Owning(s.threads[u])
  {
    Writers(s.threads);
    var f := if s.threads[t].TestShare? then Sharing else Owning;
    u := SomeThread(f, s.threads);
  }

  predicate SharedCall(a: Attempt<Call>) {
    a.call == Some(LockShared) || a.call == Some(TryLockShared)
  }

  /** Two threads only hold the lock at once if both have called for shared access. */
  lemma HoldersShare(m: nat, threads: nat, run: seq<(nat, Call)>, t: nat, u: nat)
    requires m > 0 && threads <= m && t < threads && u < threads && t != u
    ensures var s := Exec(m, Initial(threads), run);
            && t < |s.threads| && u < |s.threads|
            && (HeldAt(s.threads[t]) != NotHeld && HeldAt(s.threads[u]) != NotHeld ==>
                  SharedCall(AttemptOf(m, threads, run, t)) && SharedCall(AttemptOf(m, threads, run, u)))
  {
    var s := Exec(m, Initial(threads), run);
    CallsGetWhatTheyAsk(m, threads, run, t);
    CallsGetWhatTheyAsk(m, threads, run, u);
    LockReachable(m, threads, run);
    TicketReachable(m, threads, run);
    if s.threads[t].Writing? { NotBoth(s, t, u); }
    if s.threads[u].Writing? { NotBoth(s, u, t); }
  }

  lemma NotBoth(s: State, t: nat, u: nat)
    requires Exclusive(s) && t < |s.threads| && u < |s.threads| && t != u && s.threads[t].Writing?
    ensures HeldAt(s.threads[u]) == NotHeld
  {
    CountSome(MayWrite, s.threads, t);
    OnlyOne(MayWrite, s.threads, t, u);
    CountNone(MayRead, s.threads);
  }
}
