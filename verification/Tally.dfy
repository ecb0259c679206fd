/**
 Counting the threads that are at certain points of their code.
 */
module Tally {

  function Count<P>(f: P -> bool, s: seq<P>): nat {
    if s == [] then 0 else (if f(s[0]) then 1 else 0) + Count(f, s[1..])
  }

  /** What one thread's step does to the count. */
  lemma {:induction false} CountUpdate<P>(f: P -> bool, s: seq<P>, t: nat, p: P)
    requires t < |s|
    ensures Count(f, s[t := p]) == Count(f, s) - (if f(s[t]) then 1 else 0) + (if f(p) then 1 else 0)
  {
    if t == 0 {
      assert s[t := p][1..] == s[1..];
    } else {
      assert s[t := p][1..] == s[1..][t - 1 := p];
      CountUpdate(f, s[1..], t - 1, p);
    }
  }

  lemma {:induction false} CountNone<P>(f: P -> bool, s: seq<P>)
    ensures Count(f, s) == 0 <==> forall t :: 0 <= t < |s| ==> !f(s[t])
  {
    if s != [] {
      CountNone(f, s[1..]);
      assert forall t :: 1 <= t < |s| ==> s[t] == s[1..][t - 1];
      assert forall t :: 0 <= t < |s[1..]| ==> s[1..][t] == s[t + 1];
    }
  }

  lemma CountSome<P>(f: P -> bool, s: seq<P>, t: nat)
    requires t < |s| && f(s[t])
    ensures Count(f, s) > 0
  {
    CountNone(f, s);
  }

  lemma {:induction false} SomeThread<P>(f: P -> bool, s: seq<P>) returns (t: nat)
    requires Count(f, s) > 0
    ensures t < |s| && f(s[t])
  {
    if f(s[0]) { t := 0; } else { t := SomeThread(f, s[1..]); t := t + 1; }
  }

  function One(b: bool): nat {
    if b then 1 else 0
  }

  /** The count of the other threads stays the same. */
  lemma CountMoved<P>(f: P -> bool, s: seq<P>, t: nat, p: P)
    requires t < |s|
    ensures Count(f, s) >= One(f(s[t]))
    ensures Count(f, s[t := p]) == Count(f, s) - One(f(s[t])) + One(f(p))
  {
    CountUpdate(f, s, t, p);
    if f(s[t]) { CountSome(f, s, t); }
  }

  /** If only one thread counts, no other one does. */
  lemma OnlyOne<P>(f: P -> bool, s: seq<P>, t: nat, u: nat)
    requires t < |s| && u < |s| && t != u && f(s[t]) && Count(f, s) <= 1
    ensures !f(s[u])
  {
    if f(s[u]) {
      var rest := s[..t] + s[t + 1..];
      assert s == s[..t] + [s[t]] + s[t + 1..];
      CountAppend(f, s[..t] + [s[t]], s[t + 1..]);
      CountAppend(f, s[..t], [s[t]]);
      CountAppend(f, s[..t], s[t + 1..]);
      CountSome(f, rest, if u < t then u else u - 1);
    }
  }

  lemma {:induction false} CountAtMost<P>(f: P -> bool, s: seq<P>)
    ensures Count(f, s) <= |s|
  {
    if s != [] { CountAtMost(f, s[1..]); }
  }

  /** A thread that does not count leaves room for one less. */
  lemma CountWithout<P>(f: P -> bool, s: seq<P>, t: nat)
    requires t < |s| && !f(s[t])
    ensures Count(f, s) <= |s| - 1
  {
    assert s == s[..t] + [s[t]] + s[t + 1..];
    CountAppend(f, s[..t] + [s[t]], s[t + 1..]);
    CountAppend(f, s[..t], [s[t]]);
    CountAtMost(f, s[..t]);
    CountAtMost(f, s[t + 1..]);
  }

  lemma {:induction false} CountAppend<P>(f: P -> bool, a: seq<P>, b: seq<P>)
    ensures Count(f, a + b) == Count(f, a) + Count(f, b)
  {
    if a == [] {
      assert a + b == b;
    } else {
      assert (a + b)[1..] == a[1..] + b;
      CountAppend(f, a[1..], b);
    }
  }

  lemma {:induction false} CountFewer<P(!new)>(f: P -> bool, g: P -> bool, s: seq<P>)
    requires forall p :: f(p) ==> g(p)
    ensures Count(f, s) <= Count(g, s)
  {
    if s != [] { CountFewer(f, g, s[1..]); }
  }

  /** A thread that counts for g only. */
  lemma CountFewerWithout<P(!new)>(f: P -> bool, g: P -> bool, s: seq<P>, t: nat)
    requires (forall p :: f(p) ==> g(p)) && t < |s| && g(s[t]) && !f(s[t])
    ensures Count(f, s) < Count(g, s)
  {
    assert s == s[..t] + [s[t]] + s[t + 1..];
    CountAppend(f, s[..t] + [s[t]], s[t + 1..]);
    CountAppend(f, s[..t], [s[t]]);
    CountAppend(g, s[..t] + [s[t]], s[t + 1..]);
    CountAppend(g, s[..t], [s[t]]);
    CountFewer(f, g, s[..t]);
    CountFewer(f, g, s[t + 1..]);
  }

  // ----- counters that wrap around at m -----

  function Add(n: nat, m: nat): nat
    requires m > 0
  {
    if n + 1 == m then 0 else n + 1
  }

  function Subtract(n: nat, m: nat): nat
    requires m > 0
  {
    if n == 0 then m - 1 else n - 1
  }

  /** What a counter shows after n increments. */
  function Wrapped(n: nat, m: nat): (r: nat)
    requires m > 0
    ensures r < m
  {
    if n == 0 then 0 else Add(Wrapped(n - 1, m), m)
  }

  lemma WrappedNext(n: nat, m: nat)
    requires m > 0
    ensures Wrapped(n + 1, m) == Add(Wrapped(n, m), m) && Subtract(Wrapped(n + 1, m), m) == Wrapped(n, m)
  {
  }

  lemma {:induction false} WrappedPlus(n: nat, k: nat, m: nat)
    requires k < m
    ensures Wrapped(n + k, m) == if Wrapped(n, m) + k < m then Wrapped(n, m) + k else Wrapped(n, m) + k - m
  {
    if k > 0 {
      WrappedPlus(n, k - 1, m);
      assert Wrapped(n + k, m) == Add(Wrapped(n + (k - 1), m), m);
    }
  }

  /** The counter tells numbers apart that differ by less than m. */
  lemma WrappedDiffer(n: nat, k: nat, m: nat)
    requires n <= k < n + m && Wrapped(n, m) == Wrapped(k, m)
    ensures n == k
  {
    WrappedPlus(n, k - n, m);
  }
}
