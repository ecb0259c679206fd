/**
 FairRWLock: blocking calls draw a ticket and wait for their turn; try calls take the lock without
 one.  Every atomic access is a step of its own, and any number of threads interleave.
 */
module FairRWLock {
  import opened Tally

  /** shareCount, nextLockId and currentLockId are 16-bit counters. */
  const MODULUS: nat := 0x1_0000

  const LOCK_WRITE_BIT: nat := 1
  const LOCK_TRY_WRITE_BIT: nat := 3

  datatype Call = LockShared | Lock | TryLockShared | TryLock

  /** Where a thread is in the code: each point is followed by one atomic access. */
  datatype Point =
    | Idle
    // lock_shared
    | DrawShared
    | WaitShared(lockId: nat)
    | CountShare
    | SpinType
    | PassShared
    // lock
    | DrawExclusive
    | WaitExclusive(lockId: nat)
    | SpinTake
    | SpinShare
    // try_lock_shared
    | AddShare
    | TestType
    | DropShare
    // try_lock
    | TakeType
    | TestShare
    | DropType
    // holding, and unlocking
    | Reading
    | Writing(byTicket: bool)
    | PassTurn

  datatype Fields = Fields(lockType: nat, shareCount: nat, nextLockId: nat, currentLockId: nat)

  /**
   The fields and the threads, and the history: which ticket each thread drew last, who drew which
   ticket, who was admitted in which order, and how often the turn was passed on.
   */
  datatype State = State(
    fields: Fields,
    threads: seq<Point>,
    tickets: seq<nat>,
    drawn: seq<nat>,
    admitted: seq<nat>,
    passes: nat)

  function Initial(threads: nat): State {
    State(Fields(0, 0, 0, 0), seq(threads, _ => Idle), seq(threads, _ => 0), [], [], 0)
  }

  datatype Access = Access(point: Point, fields: Fields)

  /** The access that follows point p; `call` is looked at only when the thread is idle. */
  function Perform(m: nat, p: Point, f: Fields, call: Call): Access
    requires m > 0
  {
    match p
    case Idle =>
      Access(match call
        case LockShared => DrawShared
        case Lock => DrawExclusive
        case TryLockShared => AddShare
        case TryLock => TakeType, f)
    case DrawShared => Access(WaitShared(f.currentLockId), f.(currentLockId := Add(f.currentLockId, m)))
    case WaitShared(lockId) => Access(if lockId != f.nextLockId then p else CountShare, f)
    case CountShare => Access(SpinType, f.(shareCount := Add(f.shareCount, m)))
    case SpinType => Access(if f.lockType != 0 then p else PassShared, f)
    case PassShared => Access(Reading, f.(nextLockId := Add(f.nextLockId, m)))
    case DrawExclusive => Access(WaitExclusive(f.currentLockId), f.(currentLockId := Add(f.currentLockId, m)))
    case WaitExclusive(lockId) => Access(if lockId != f.nextLockId then p else SpinTake, f)
    case SpinTake => if f.lockType == 0 then Access(SpinShare, f.(lockType := LOCK_WRITE_BIT)) else Access(p, f)
    case SpinShare => Access(if f.shareCount != 0 then p else Writing(true), f)
    case AddShare => Access(TestType, f.(shareCount := Add(f.shareCount, m)))
    case TestType => Access(if f.lockType == 0 then Reading else DropShare, f)
    case DropShare => Access(Idle, f.(shareCount := Subtract(f.shareCount, m)))
    case TakeType => if f.lockType == 0 then Access(TestShare, f.(lockType := LOCK_TRY_WRITE_BIT)) else Access(Idle, f)
    case TestShare => Access(if f.shareCount == 0 then Writing(false) else DropType, f)
    case DropType => Access(Idle, f.(lockType := 0))
    case Reading => Access(Idle, f.(shareCount := Subtract(f.shareCount, m)))
    case Writing(_) => Access(if f.lockType == LOCK_WRITE_BIT then PassTurn else Idle, f.(lockType := 0))
    case PassTurn => Access(Idle, f.(nextLockId := Add(f.nextLockId, m)))
  }

  predicate Drawing(p: Point) {
    p.DrawShared? || p.DrawExclusive?
  }

  predicate Waiting(p: Point) {
    p.WaitShared? || p.WaitExclusive?
  }

  predicate Passing(p: Point) {
    p.PassShared? || p.PassTurn?
  }

  /** Thread t moves. */
  function Step(m: nat, s: State, t: nat, call: Call): State
    requires m > 0
  {
    if t >= |s.threads| || |s.tickets| != |s.threads| then s else
    var p := s.threads[t];
    var a := Perform(m, p, s.fields, call);
    State(a.fields, s.threads[t := a.point],
      if Drawing(p) then s.tickets[t := |s.drawn|] else s.tickets,
      if Drawing(p) then s.drawn + [t] else s.drawn,
      if Waiting(p) && a.point != p then s.admitted + [t] else s.admitted,
      if Passing(p) then s.passes + 1 else s.passes)
  }

  /** A run: which thread moves, and what it calls if it is idle. */
  function Exec(m: nat, s: State, run: seq<(nat, Call)>): State
    requires m > 0
  {
    if run == [] then s else
    var last := run[|run| - 1];
    Step(m, Exec(m, s, run[..|run| - 1]), last.0, last.1)
  }

  // ----- the lock type and the share count -----

  /** The thread has counted itself as a reader: it holds the lock or is in transit. */
  predicate Sharing(p: Point) {
    p.SpinType? || p.PassShared? || p.TestType? || p.DropShare? || p.Reading?
  }

  /** The thread has set the lock type, in its turn or by a try call. */
  predicate Claiming(p: Point) {
    p.SpinShare? || (p.Writing? && p.byTicket)
  }

  predicate Trying(p: Point) {
    p.TestShare? || p.DropType? || (p.Writing? && !p.byTicket)
  }

  /** The thread may read: what is left of lock_shared is to pass on the turn. */
  predicate MayRead(p: Point) {
    p.Reading? || p.PassShared?
  }

  predicate MayWrite(p: Point) {
    p.Writing?
  }

  ghost predicate TypeAndCount(m: nat, f: Fields, claims: nat, tries: nat, shares: nat)
    requires m > 0
  {
    && f.lockType in {0, LOCK_WRITE_BIT, LOCK_TRY_WRITE_BIT}
    && claims == One(f.lockType == LOCK_WRITE_BIT) && tries == One(f.lockType == LOCK_TRY_WRITE_BIT)
    && f.shareCount == Wrapped(shares, m)
  }

  /** An access keeps the fields right, given how many of the other threads claim, try and share. */
  lemma AccessKeeps(m: nat, p: Point, f: Fields, call: Call, claims: nat, tries: nat, shares: nat)
    requires m > 0 && TypeAndCount(m, f, claims + One(Claiming(p)), tries + One(Trying(p)), shares + One(Sharing(p)))
    ensures var a := Perform(m, p, f, call);
            TypeAndCount(m, a.fields, claims + One(Claiming(a.point)), tries + One(Trying(a.point)),
                shares + One(Sharing(a.point)))
  {
    WrappedNext(shares, m);
  }

  ghost predicate LockInv(m: nat, s: State)
    requires m > 0
  {
    && |s.tickets| == |s.threads|
    && TypeAndCount(m, s.fields, Count(Claiming, s.threads), Count(Trying, s.threads), Count(Sharing, s.threads))
  }

  lemma LockInvStep(m: nat, s: State, t: nat, call: Call)
    requires m > 0 && LockInv(m, s)
    ensures LockInv(m, Step(m, s, t, call))
  {
    if t < |s.threads| {
      var p := s.threads[t];
      var p' := Perform(m, p, s.fields, call).point;
      CountMoved(Claiming, s.threads, t, p');
      CountMoved(Trying, s.threads, t, p');
      CountMoved(Sharing, s.threads, t, p');
      AccessKeeps(m, p, s.fields, call, Count(Claiming, s.threads) - One(Claiming(p)),
                  Count(Trying, s.threads) - One(Trying(p)), Count(Sharing, s.threads) - One(Sharing(p)));
    }
  }

  /** At most one writer, and no reader beside it. */
  ghost predicate Exclusive(s: State) {
    Count(MayWrite, s.threads) == 0 || (Count(MayWrite, s.threads) == 1 && Count(MayRead, s.threads) == 0)
  }

  /** A step keeps mutual exclusion as long as the share count cannot wrap around to 0. */
  lemma ExclusiveStep(m: nat, s: State, t: nat, call: Call)
    requires m > 0 && LockInv(m, s) && Exclusive(s) && |s.threads| <= m
    ensures Exclusive(Step(m, s, t, call))
  {
    if t < |s.threads| {
      var p := s.threads[t];
      var p' := Perform(m, p, s.fields, call).point;
      CountMoved(MayWrite, s.threads, t, p');
      CountMoved(MayRead, s.threads, t, p');
      Writers(s.threads);
      CountFewer(MayRead, Sharing, s.threads);
      if MayWrite(p') {
        CountWithout(Sharing, s.threads, t);
        WrappedPlus(0, Count(Sharing, s.threads), m);
        WriterArrives(s.threads, t);
      }
    }
  }

  predicate Owning(p: Point) {
    Claiming(p) || Trying(p)
  }

  /** Whoever may write has set the lock type. */
  lemma {:induction false} Writers(threads: seq<Point>)
    ensures Count(MayWrite, threads) <= Count(Owning, threads) == Count(Claiming, threads) + Count(Trying, threads)
  {
    if threads != [] { Writers(threads[1..]); }
  }

  lemma WriterArrives(threads: seq<Point>, t: nat)
    requires t < |threads| && Owning(threads[t]) && !MayWrite(threads[t])
    ensures Count(MayWrite, threads) < Count(Claiming, threads) + Count(Trying, threads)
  {
    CountFewerWithout(MayWrite, Owning, threads, t);
    Writers(threads);
  }

  // ----- the tickets -----

  /** The thread has drawn a ticket and not yet passed on its turn. */
  predicate Ticketed(p: Point) {
    Waiting(p) || InTurn(p)
  }

  /** It is the thread's turn. */
  predicate InTurn(p: Point) {
    || p.CountShare? || p.SpinType? || p.PassShared?
    || p.SpinTake? || p.SpinShare? || (p.Writing? && p.byTicket) || p.PassTurn?
  }

  function LockId(p: Point): nat {
    if p.WaitShared? || p.WaitExclusive? then p.lockId else 0
  }

  /** A thread's ticket is its own, shows the right number, and is the current one if it is the thread's turn. */
  ghost predicate ThreadOk(m: nat, s: State, t: nat)
    requires m > 0 && t < |s.threads| == |s.tickets|
  {
    var p, n := s.threads[t], s.tickets[t];
    Ticketed(p) ==>
      && s.passes <= n < |s.drawn| && s.drawn[n] == t
      && (Waiting(p) ==> LockId(p) == Wrapped(n, m))
      && (InTurn(p) ==> n == s.passes)
  }

  /** A ticket that is outstanding is in a thread's hands. */
  ghost predicate TicketOk(s: State, n: nat)
    requires n < |s.drawn| && |s.threads| == |s.tickets|
  {
    var t := s.drawn[n];
    t < |s.threads| && (n >= s.passes ==> Ticketed(s.threads[t]) && s.tickets[t] == n)
  }

  /** The holder of the current ticket has been admitted. */
  ghost predicate TurnTaken(s: State) {
    s.passes < |s.drawn| && s.drawn[s.passes] < |s.threads| && InTurn(s.threads[s.drawn[s.passes]])
  }

  ghost predicate TicketInv(m: nat, s: State)
    requires m > 0
  {
    && |s.threads| == |s.tickets| && s.passes <= |s.drawn|
    && s.fields.nextLockId == Wrapped(s.passes, m) && s.fields.currentLockId == Wrapped(|s.drawn|, m)
    && (forall t: nat :: t < |s.threads| ==> ThreadOk(m, s, t))
    && (forall n: nat :: n < |s.drawn| ==> TicketOk(s, n))
    && |s.admitted| == s.passes + One(TurnTaken(s)) && s.admitted <= s.drawn
  }

  /** A thread other than t keeps its ticket in order when t draws one. */
  lemma DrawKeeps(m: nat, s: State, t: nat, call: Call)
    requires m > 0 && t < |s.threads| && TicketInv(m, s) && Drawing(s.threads[t])
    ensures TicketInv(m, Step(m, s, t, call))
  {
    var s' := Step(m, s, t, call);
    WrappedNext(|s.drawn|, m);
    forall u: nat | u < |s'.threads| ensures ThreadOk(m, s', u) { assert ThreadOk(m, s, u); }
    forall n: nat | n < |s'.drawn| ensures TicketOk(s', n) {
      if n < |s.drawn| { assert TicketOk(s, n); }
    }
    if s.passes < |s.drawn| { assert TicketOk(s, s.passes); }
  }

  /** Each thread holds at most one ticket, so no more are outstanding than there are threads. */
  lemma Outstanding(m: nat, s: State)
    requires m > 0 && TicketInv(m, s)
    ensures |s.drawn| - s.passes <= |s.threads|
  {
    var q := s.drawn[s.passes..];
    forall i {:trigger q[i]} | 0 <= i < |q| ensures q[i] < |s.threads| && s.tickets[q[i]] == s.passes + i {
      assert TicketOk(s, s.passes + i);
    }
    Pigeonhole(q, |s.threads|);
  }

  lemma {:induction false} Pigeonhole(q: seq<nat>, n: nat)
    requires forall i, j :: 0 <= i < j < |q| ==> q[i] != q[j]
    requires forall i :: 0 <= i < |q| ==> q[i] < n
    ensures |q| <= n
  {
    if q != [] {
      assert q[0] < n;
      var last := n - 1;
      if i :| 0 <= i < |q| && q[i] == last {
        Pigeonhole(q[..i] + q[i + 1..], n - 1);
      } else {
        Pigeonhole(q[1..], n - 1);
      }
    }
  }

  /** A waiting thread is admitted with the current ticket only. */
  lemma AdmitKeeps(m: nat, s: State, t: nat, call: Call)
    requires m > 0 && t < |s.threads| <= m && TicketInv(m, s) && Waiting(s.threads[t])
    ensures TicketInv(m, Step(m, s, t, call))
  {
    var s' := Step(m, s, t, call);
    assert ThreadOk(m, s, t);
    if s'.threads[t] != s.threads[t] {
      Outstanding(m, s);
      WrappedDiffer(s.passes, s.tickets[t], m);
      assert !TurnTaken(s) && TurnTaken(s');
      forall u: nat | u < |s'.threads| ensures ThreadOk(m, s', u) { assert ThreadOk(m, s, u); }
      forall n: nat | n < |s'.drawn| ensures TicketOk(s', n) { assert TicketOk(s, n); }
    } else {
      assert s'.threads == s.threads;
      assert s' == s;
    }
  }

  /** The turn goes to the next ticket, which is not in its turn yet. */
  lemma PassKeeps(m: nat, s: State, t: nat, call: Call)
    requires m > 0 && t < |s.threads| && TicketInv(m, s) && Passing(s.threads[t])
    ensures TicketInv(m, Step(m, s, t, call))
  {
    var s' := Step(m, s, t, call);
    assert ThreadOk(m, s, t);
    WrappedNext(s.passes, m);
    assert TurnTaken(s);
    forall u: nat | u < |s'.threads| ensures ThreadOk(m, s', u) { assert ThreadOk(m, s, u); }
    forall n: nat | n < |s'.drawn| ensures TicketOk(s', n) { assert TicketOk(s, n); }
    if s'.passes < |s'.drawn| {
      assert TicketOk(s, s'.passes);
      assert ThreadOk(m, s, s.drawn[s'.passes]);
    }
  }

  lemma NeutralAccess(m: nat, p: Point, f: Fields, call: Call)
    requires m > 0 && !Drawing(p) && !Waiting(p) && !Passing(p)
    requires p.Writing? ==> (p.byTicket <==> f.lockType == LOCK_WRITE_BIT)
    ensures var a := Perform(m, p, f, call);
            && Ticketed(a.point) == Ticketed(p) && InTurn(a.point) == InTurn(p) && !Waiting(a.point)
            && a.fields.nextLockId == f.nextLockId && a.fields.currentLockId == f.currentLockId
  {
  }

  /** The other steps leave the tickets alone. */
  lemma NeutralKeeps(m: nat, s: State, t: nat, call: Call)
    requires m > 0 && t < |s.threads| && TicketInv(m, s) && LockInv(m, s)
    requires !Drawing(s.threads[t]) && !Waiting(s.threads[t]) && !Passing(s.threads[t])
    ensures TicketInv(m, Step(m, s, t, call))
  {
    var p := s.threads[t];
    CountMoved(Claiming, s.threads, t, p);
    CountMoved(Trying, s.threads, t, p);
    NeutralAccess(m, p, s.fields, call);
    TicketsAlone(m, s, t, Perform(m, p, s.fields, call), Step(m, s, t, call));
  }

  lemma TicketsAlone(m: nat, s: State, t: nat, a: Access, s': State)
    requires m > 0 && t < |s.threads| && TicketInv(m, s)
    requires s' == s.(fields := a.fields, threads := s.threads[t := a.point])
    requires Ticketed(a.point) == Ticketed(s.threads[t]) && InTurn(a.point) == InTurn(s.threads[t]) && !Waiting(a.point)
    requires a.fields.nextLockId == s.fields.nextLockId && a.fields.currentLockId == s.fields.currentLockId
    ensures TicketInv(m, s')
  {
    forall u: nat | u < |s'.threads| ensures ThreadOk(m, s', u) { assert ThreadOk(m, s, u); }
    forall n: nat | n < |s'.drawn| ensures TicketOk(s', n) { assert TicketOk(s, n); }
  }

  // ----- every run -----

  lemma InitialOk(m: nat, threads: nat)
    requires m > 0
    ensures LockInv(m, Initial(threads)) && TicketInv(m, Initial(threads)) && Exclusive(Initial(threads))
  {
    var s := Initial(threads);
    CountNone(Claiming, s.threads);
    CountNone(Trying, s.threads);
    CountNone(Sharing, s.threads);
    CountNone(MayWrite, s.threads);
  }

  /** What holds in every state that any number of threads reach. */
  lemma {:induction false} LockReachable(m: nat, threads: nat, run: seq<(nat, Call)>)
    requires m > 0
    ensures var s := Exec(m, Initial(threads), run); |s.threads| == threads && LockInv(m, s)
  {
    if run == [] {
      InitialOk(m, threads);
    } else {
      var last := run[|run| - 1];
      LockReachable(m, threads, run[..|run| - 1]);
      LockInvStep(m, Exec(m, Initial(threads), run[..|run| - 1]), last.0, last.1);
    }
  }

  lemma TicketStep(m: nat, s: State, t: nat, call: Call)
    requires m > 0 && LockInv(m, s) && TicketInv(m, s) && |s.threads| <= m
    ensures TicketInv(m, Step(m, s, t, call))
  {
    if t < |s.threads| {
      if Drawing(s.threads[t]) { DrawKeeps(m, s, t, call); }
      else if Waiting(s.threads[t]) { AdmitKeeps(m, s, t, call); }
      else if Passing(s.threads[t]) { PassKeeps(m, s, t, call); }
      else { NeutralKeeps(m, s, t, call); }
    }
  }

  /** What holds in every state that at most m threads reach. */
  lemma {:induction false} TicketReachable(m: nat, threads: nat, run: seq<(nat, Call)>)
    requires 0 < m && threads <= m
    ensures var s := Exec(m, Initial(threads), run); TicketInv(m, s) && Exclusive(s)
  {
    if run == [] {
      InitialOk(m, threads);
    } else {
      var last := run[|run| - 1];
      var s := Exec(m, Initial(threads), run[..|run| - 1]);
      LockReachable(m, threads, run[..|run| - 1]);
      TicketReachable(m, threads, run[..|run| - 1]);
      TicketStep(m, s, last.0, last.1);
      ExclusiveStep(m, s, last.0, last.1);
    }
  }

  /** Admission follows the drawing of tickets, and every turn but the current one has been passed on once. */
  ghost predicate InTicketOrder(s: State) {
    s.admitted <= s.drawn && s.passes <= |s.admitted| <= s.passes + 1
  }

  lemma ExecOne(m: nat, s: State, run: seq<(nat, Call)>, t: nat, call: Call)
    requires m > 0
    ensures Exec(m, s, run + [(t, call)]) == Step(m, Exec(m, s, run), t, call)
  {
    assert (run + [(t, call)])[..|run|] == run;
  }

  /** The first k threads have drawn tickets for lock_shared, and nothing else has happened. */
  function Drawn(m: nat, threads: nat, k: nat): State
    requires m > 0 && k <= threads
  {
    State(Fields(0, 0, 0, Wrapped(k, m)),
        seq(threads, t requires 0 <= t < threads => if t < k then WaitShared(Wrapped(t, m)) else Idle),
          seq(threads, t => if t < k then t else 0), seq(k, t => t), [], 0)
  }

  lemma {:induction false} AllDraw(m: nat, threads: nat, k: nat) returns (run: seq<(nat, Call)>)
    requires m > 0 && k <= threads
    ensures Exec(m, Initial(threads), run) == Drawn(m, threads, k)
  {
    run := [];
    if k == 0 {
      assert Initial(threads).threads == Drawn(m, threads, 0).threads
             && Initial(threads).tickets == Drawn(m, threads, 0).tickets;
    } else {
      var before := AllDraw(m, threads, k - 1);
      DrawOne(m, threads, k);
      run := ExecTwo(m, Initial(threads), before, k - 1, LockShared);
    }
  }

  lemma ExecTwo(m: nat, s: State, before: seq<(nat, Call)>, t: nat, call: Call) returns (run: seq<(nat, Call)>)
    requires m > 0
    ensures Exec(m, s, run) == Step(m, Step(m, Exec(m, s, before), t, call), t, call)
  {
    ExecOne(m, s, before, t, call);
    ExecOne(m, s, before + [(t, call)], t, call);
    run := before + [(t, call)] + [(t, call)];
  }

  lemma DrawOne(m: nat, threads: nat, k: nat)
    requires m > 0 && 0 < k <= threads
    ensures Step(m, Step(m, Drawn(m, threads, k - 1), k - 1, LockShared), k - 1, LockShared) == Drawn(m, threads, k)
  {
    var s, t := Drawn(m, threads, k - 1), k - 1;
    var s1 := Step(m, s, t, LockShared);
    assert s1 == s.(threads := s.threads[t := DrawShared]);
    var s2 := Step(m, s1, t, LockShared);
    assert s2.fields == Drawn(m, threads, k).fields;
    assert s2.threads == Drawn(m, threads, k).threads;
    assert s2.tickets == Drawn(m, threads, k).tickets && s2.drawn == Drawn(m, threads, k).drawn;
  }

  /** With more threads than ticket numbers, the thread that drew ticket m is taken for the one that drew ticket 0. */
  lemma Overtaken(m: nat, threads: nat) returns (run: seq<(nat, Call)>)
    requires 0 < m < threads
    ensures !InTicketOrder(Exec(m, Initial(threads), run))
  {
    var before := AllDraw(m, threads, threads);
    var s := Drawn(m, threads, threads);
    WrappedPlus(0, m - 1, m);
    WrappedNext(m - 1, m);
    ExecOne(m, Initial(threads), before, m, LockShared);
    run := before + [(m, LockShared)];
    var s1 := Step(m, s, m, LockShared);
    assert s1.admitted == [m] && s1.drawn[0] == 0;
  }

  /** Tickets are honoured in order in every run, exactly as long as there are no more threads than ticket numbers. */
  lemma FirstComeFirstServed(m: nat, threads: nat)
    requires m > 0
    ensures (forall run :: InTicketOrder(Exec(m, Initial(threads), run))) <==> threads <= m
  {
    if threads <= m {
      forall run ensures InTicketOrder(Exec(m, Initial(threads), run)) { TicketReachable(m, threads, run); }
    } else {
      var run := Overtaken(m, threads);
    }
  }

  // ----- progress -----

  /** The thread is in a call, and its next access is not a wait that goes on. */
  ghost predicate CanAdvance(m: nat, s: State, t: nat)
    requires m > 0
  {
    t < |s.threads| && !s.threads[t].Idle? && forall call :: Step(m, s, t, call) != s
  }

  predicate Holding(p: Point) {
    p.Reading? || p.Writing?
  }

  lemma Advances(m: nat, s: State, t: nat)
    requires m > 0 && t < |s.threads| == |s.tickets| && !s.threads[t].Idle?
    requires Perform(m, s.threads[t], s.fields, Lock).point != s.threads[t]
    ensures CanAdvance(m, s, t)
  {
    forall call ensures Step(m, s, t, call) != s {
      assert Step(m, s, t, call).threads[t] == Perform(m, s.threads[t], s.fields, call).point;
    }
  }

  /** The thread whose turn it is waits for another, which is then on its way out. */
  lemma SomeoneInTransit(m: nat, s: State, t: nat) returns (u: nat)
    requires m > 0 && LockInv(m, s) && TicketInv(m, s) && t < |s.threads| && InTurn(s.threads[t])
    requires forall u :: 0 <= u < |s.threads| ==> !Holding(s.threads[u])
    requires Perform(m, s.threads[t], s.fields, Lock).point == s.threads[t]
    ensures CanAdvance(m, s, u)
  {
    assert ThreadOk(m, s, t);
    var f := if s.threads[t].SpinShare? then Sharing else Owning;
    Writers(s.threads);
    u := SomeThread(f, s.threads);
    assert ThreadOk(m, s, u);
    Advances(m, s, u);
  }

  /** While a ticket is outstanding and nobody holds the lock, some thread in a call can advance. */
  lemma Progress(m: nat, threads: nat, run: seq<(nat, Call)>)
    requires 0 < m && threads <= m
    ensures var s := Exec(m, Initial(threads), run);
            (s.passes < |s.drawn| && forall t :: 0 <= t < |s.threads| ==> !Holding(s.threads[t]))
            ==> exists t :: CanAdvance(m, s, t)
  {
    var s := Exec(m, Initial(threads), run);
    LockReachable(m, threads, run);
    TicketReachable(m, threads, run);
    if s.passes < |s.drawn| && forall t :: 0 <= t < |s.threads| ==> !Holding(s.threads[t]) {
      var t := s.drawn[s.passes];
      assert TicketOk(s, s.passes) && ThreadOk(m, s, t);
      if Perform(m, s.threads[t], s.fields, Lock).point != s.threads[t] {
        Advances(m, s, t);
      } else {
        var u := SomeoneInTransit(m, s, t);
      }
    }
  }

  // ----- mutual exclusion, exactly -----

  /** k threads hold the lock as readers, and the others are idle. */
  function Readers(m: nat, threads: nat, k: nat): State
    requires m > 0 && k <= threads
  {
    var points := seq(threads, t => if t < k then Reading else Idle);
    State(Fields(0, Wrapped(k, m), 0, 0), points, seq(threads, _ => 0), [], [], 0)
  }

  lemma {:induction false} ReadersEnter(m: nat, threads: nat, k: nat) returns (run: seq<(nat, Call)>)
    requires m > 0 && k <= threads
    ensures Exec(m, Initial(threads), run) == Readers(m, threads, k)
  {
    run := [];
    if k > 0 {
      var before := ReadersEnter(m, threads, k - 1);
      OneMoreReader(m, threads, k);
      run := ExecThree(m, Initial(threads), before, k - 1, TryLockShared);
    }
  }

  lemma ExecThree(m: nat, s: State, before: seq<(nat, Call)>, t: nat, call: Call) returns (run: seq<(nat, Call)>)
    requires m > 0
    ensures Exec(m, s, run) == Step(m, Step(m, Step(m, Exec(m, s, before), t, call), t, call), t, call)
  {
    run := ExecTwo(m, s, before, t, call);
    ExecOne(m, s, run, t, call);
    run := run + [(t, call)];
  }

  lemma OneMoreReader(m: nat, threads: nat, k: nat)
    requires m > 0 && 0 < k <= threads
    ensures var t := k - 1;
            Step(m, Step(m, Step(m, Readers(m, threads, t), t, TryLockShared), t, TryLockShared), t,
                TryLockShared) == Readers(m, threads, k)
  {
    var s, t := Readers(m, threads, k - 1), k - 1;
    var s1 := Step(m, s, t, TryLockShared);
    var s2 := Step(m, s1, t, TryLockShared);
    var s3 := Step(m, s2, t, TryLockShared);
    assert s3.threads == Readers(m, threads, k).threads;
  }

  /** m readers make the count 0 again, and a writer joins them. */
  lemma WriterJoins(m: nat, threads: nat) returns (run: seq<(nat, Call)>)
    requires 0 < m < threads
    ensures !Exclusive(Exec(m, Initial(threads), run))
  {
    var before := ReadersEnter(m, threads, m);
    WrappedPlus(0, m - 1, m);
    WrappedNext(m - 1, m);
    run := ExecThree(m, Initial(threads), before, m, TryLock);
    WriterAmongReaders(m, Readers(m, threads, m), m);
  }

  /** The writer that joins: it finds the lock type and the share count 0. */
  lemma WriterAmongReaders(m: nat, s: State, t: nat)
    requires 0 < m && 0 < t < |s.threads| == |s.tickets| && s.fields.lockType == 0 && s.fields.shareCount == 0
    requires s.threads[t] == Idle && s.threads[0] == Reading
    ensures !Exclusive(Step(m, Step(m, Step(m, s, t, TryLock), t, TryLock), t, TryLock))
  {
    var s1 := Step(m, s, t, TryLock);
    var s2 := Step(m, s1, t, TryLock);
    var s3 := Step(m, s2, t, TryLock);
    assert s1.threads[t] == TakeType && s2.threads[t] == TestShare;
    assert s3.threads[t] == Writing(false) && s3.threads[0] == Reading;
    CountSome(MayWrite, s3.threads, t);
    CountSome(MayRead, s3.threads, 0);
  }

  /**
   At most one writer and no reader beside it, exactly as long as there are no more threads than
   the share count can tell apart.
   */
  lemma MutualExclusion(m: nat, threads: nat)
    requires m > 0
    ensures (forall run :: Exclusive(Exec(m, Initial(threads), run))) <==> threads <= m
  {
    if threads <= m {
      forall run ensures Exclusive(Exec(m, Initial(threads), run)) { TicketReachable(m, threads, run); }
    } else {
      var run := WriterJoins(m, threads);
    }
  }

  lemma FairAsBuilt(threads: nat)
    ensures (forall run :: Exclusive(Exec(MODULUS, Initial(threads), run))) <==> threads <= MODULUS
    ensures (forall run :: InTicketOrder(Exec(MODULUS, Initial(threads), run))) <==> threads <= MODULUS
  {
    MutualExclusion(MODULUS, threads);
    FirstComeFirstServed(MODULUS, threads);
  }
}
