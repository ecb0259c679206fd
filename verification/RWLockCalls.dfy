/**
 What a thread calls on an RWLock, and what it gets.
 */
module RWLockCalls {
  import opened Basics
  import opened Tally
  import opened Attempts
  import opened RWLock

  function HeldAt(p: Point): Hold {
    if p.Reading? then Shared else if p.Writing? then Exclusively else NotHeld
  }

  /** What thread t has called last in a run, and what has come of it. */
  function AttemptOf(m: nat, threads: nat, run: seq<(nat, Call)>, t: nat): Attempt<Call>
    requires m > 0
  {
    if run == [] then Attempt(None, NotHeld, 0) else
    var before, last := run[..|run| - 1], run[|run| - 1];
    var s, s' := Exec(m, Initial(threads), before), Exec(m, Initial(threads), run);
    if last.0 != t || t >= |s.threads| || t >= |s'.threads| then AttemptOf(m, threads, before, t)
    else After(AttemptOf(m, threads, before, t), s.threads[t].Idle?, last.1, HeldAt(s'.threads[t]))
  }

  /** Where a thread can be, given what it has called and what has come of it. */
  predicate Serves(a: Attempt<Call>, p: Point) {
    match p
    case Idle => (a.call == Some(LockShared) ==> a.hold.Shared?) && (a.call == Some(Lock) ==> a.hold.Exclusively?)
    case AddShare(spin) => a.call == Some(if spin then LockShared else TryLockShared) && (!spin ==> a.steps == 1)
    case TestType(spin) => a.call == Some(if spin then LockShared else TryLockShared) && (!spin ==> a.steps == 2)
    case DropShare(spin) => a.call == Some(if spin then LockShared else TryLockShared) && (!spin ==> a.steps == 3)
    case Reading => a.call in {Some(LockShared), Some(TryLockShared)} && a.hold.Shared?
    case TakeType(spin) => a.call == Some(if spin then Lock else TryLock) && (!spin ==> a.steps == 1)
    case TestShare(spin) => a.call == Some(if spin then Lock else TryLock) && (!spin ==> a.steps == 2)
    case DropType(spin) => a.call == Some(if spin then Lock else TryLock) && (!spin ==> a.steps == 3)
    case Writing => a.call in {Some(Lock), Some(TryLock)} && a.hold.Exclusively?
  }

  lemma ServesStep(m: nat, a: Attempt<Call>, p: Point, lockType: nat, shareCount: nat, call: Call)
    requires m > 0 && Serves(a, p)
    ensures var p' := Perform(m, p, lockType, shareCount, call).point;
            Serves(After(a, p.Idle?, call, HeldAt(p')), p')
  {
  }

  /** In every run each thread is served as it has called. */
  lemma {:induction false} ServedAsCalled(m: nat, threads: nat, run: seq<(nat, Call)>, t: nat)
    requires m > 0 && t < threads
    ensures var s := Exec(m, Initial(threads), run);
            |s.threads| == threads && Serves(AttemptOf(m, threads, run, t), s.threads[t])
  {
    Reachable(m, threads, run);
    if run != [] {
      var before, last := run[..|run| - 1], run[|run| - 1];
      Reachable(m, threads, before);
      ServedAsCalled(m, threads, before, t);
      var s := Exec(m, Initial(threads), before);
      ServesStep(m, AttemptOf(m, threads, before, t), s.threads[t], s.lockType, s.shareCount, last.1);
    }
  }

  /**
   Whoever reads has called for shared access, and whoever writes for exclusive access; a blocking call
   only returns after the thread has held the lock that way; a try call ends within four steps of the
   thread's own, the call included.
   */
  lemma CallsGetWhatTheyAsk(m: nat, threads: nat, run: seq<(nat, Call)>, t: nat)
    requires m > 0 && t < threads
    ensures var (a, s) := (AttemptOf(m, threads, run, t), Exec(m, Initial(threads), run));
            && t < |s.threads|
            && (s.threads[t].Reading? ==> a.call in {Some(LockShared), Some(TryLockShared)})
            && (s.threads[t].Writing? ==> a.call in {Some(Lock), Some(TryLock)})
            && (s.threads[t].Idle? && a.call == Some(LockShared) ==> a.hold.Shared?)
            && (s.threads[t].Idle? && a.call == Some(Lock) ==> a.hold.Exclusively?)
            && (a.call in {Some(TryLockShared), Some(TryLock)} && a.steps >= 4 ==>
                  s.threads[t].Idle? || HeldAt(s.threads[t]) != NotHeld)
  {
    ServedAsCalled(m, threads, run, t);
  }

  /** When no other thread is in a call or holds the lock, every call gets the lock in three steps. */
  lemma Uncontended(m: nat, s: State, t: nat, call: Call)
    requires m > 0 && Inv(m, s) && t < |s.threads| && forall u :: 0 <= u < |s.threads| ==> s.threads[u].Idle?
    ensures var s' := Step(m, Step(m, Step(m, s, t, call), t, call), t, call);
            |s'.threads| == |s.threads|
            && s'.threads[t] == if call.LockShared? || call.TryLockShared? then Reading else Writing
  {
    CountNone(Claiming, s.threads);
    CountNone(Sharing, s.threads);
    var s1 := Step(m, s, t, call);
    var s2 := Step(m, s1, t, call);
    assert s1.lockType == 0 && s1.shareCount == 0 && s1.threads[t] == Perform(m, Idle, 0, 0, call).point;
    assert s2.threads[t] == if call.LockShared? || call.TryLockShared? then TestType(call.LockShared?)
                            else TestShare(call.Lock?);
  }

  /** A thread turns back. */
  predicate TurnsBack(p: Point, p': Point) {
    (p.TestType? && p'.DropShare?) || (p.TestShare? && p'.DropType?) || (p.TakeType? && !p'.TestShare?)
  }

  /** An attempt is only given up because of another thread that shares or has set the lock type. */
  lemma RefusedByAnother(m: nat, s: State, t: nat, call: Call) returns (u: nat)
    requires m > 0 && Inv(m, s) && t < |s.threads|
    requires TurnsBack(s.threads[t], Step(m, s, t, call).threads[t])
    ensures u < |s.threads| && u != t
    ensures if s.threads[t].TestShare? then Sharing(s.threads[u]) else Claiming(s.threads[u])
  {
    var f := if s.threads[t].TestShare? then Sharing else Claiming;
    u := SomeThread(f, s.threads);
  }

  predicate SharedCall(a: Attempt<Call>) {
    a.call == Some(LockShared) || a.call == Some(TryLockShared)
  }

  /** Two threads only hold the lock at once if both have called for shared access. */
  lemma HoldersShare(m: nat, threads: nat, run: seq<(nat, Call)>, t: nat, u: nat)
    requires m > 0 && threads <= m && t < threads && u < threads && t != u
    ensures var s := Exec(m, Initial(threads), run);
            && t < |s.threads| && u < |s.threads|
            && (HeldAt(s.threads[t]) != NotHeld && HeldAt(s.threads[u]) != NotHeld ==>
                  SharedCall(AttemptOf(m, threads, run, t)) && SharedCall(AttemptOf(m, threads, run, u)))
  {
    var s := Exec(m, Initial(threads), run);
    CallsGetWhatTheyAsk(m, threads, run, t);
    CallsGetWhatTheyAsk(m, threads, run, u);
    Reachable(m, threads, run);
    ExclusiveReachable(m, threads, run);
    if s.threads[t].Writing? { NotBoth(s, t, u); }
    if s.threads[u].Writing? { NotBoth(s, u, t); }
  }

  lemma NotBoth(s: State, t: nat, u: nat)
    requires Exclusive(s) && t < |s.threads| && u < |s.threads| && t != u && s.threads[t].Writing?
    ensures HeldAt(s.threads[u]) == NotHeld
  {
    CountSome(IsWriting, s.threads, t);
    OnlyOne(IsWriting, s.threads, t, u);
    CountNone(IsReading, s.threads);
  }
}
