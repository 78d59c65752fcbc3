/** What the interleaving machine guarantees: safety of locks and semaphores over
    every disciplined run, and the failures that wait outside the discipline. */
module Locking {
  import opened Machine

  ghost function HeldBy(s: State, t: Tid): set<Lock> {
    set lk | lk in s.holder && s.holder[lk] == t
  }

  /** In every disciplined run, under every schedule: the lock panics never
      happen; only the running thread holds locks; each thread's nesting counter
      is the number of locks it holds (one more inside spin_lock and
      spin_unlock); at most the current thread is running. */
  lemma MutualExclusion(s0: State, moves: seq<Move>)
    requires Start(s0) && Legal(s0, moves)
    ensures Offered(s0, moves)
    ensures var s := Exec(s0, moves);
      && LockHeld !in s.panic && UnlockFree !in s.panic
      && (s.panic == {} ==>
        && s.current in s.threads
        && (forall lk :: lk in s.holder ==> s.holder[lk] == s.current)
        && (forall t :: t in s.threads ==> s.threads[t].intrCnt == |HeldBy(s, t)| + Extra(s.threads[t].pc))
        && (forall t :: t in s.threads ==> (s.threads[t].status == Running <==> t == s.current)))
  {
    StartInv(s0);
    ExecInv(s0, moves, s0.value);
    var s := Exec(s0, moves);
    if s.panic == {} {
      assert HeldBy(s, s.current) == s.holder.Keys;
      forall t | t in s.threads && t != s.current ensures |HeldBy(s, t)| == 0 && Extra(s.threads[t].pc) == 0 {
        assert HeldBy(s, t) == {};
        assert Parked(s, s.threads[t]);
      }
    }
  }

  /** Interrupts are never on while a lock is held, and client code runs with
      interrupts on exactly when no lock is held: they return with the last
      release, in whatever order the locks are released. */
  lemma InterruptsFollowLocks(s0: State, moves: seq<Move>)
    requires Start(s0) && Legal(s0, moves)
    ensures Offered(s0, moves)
    ensures var s := Exec(s0, moves);
      s.panic == {} ==>
        && (s.flag ==> s.holder == map[])
        && s.current in s.threads
        && (Me(s).pc == Client ==> (s.flag <==> s.holder == map[]))
  {
    StartInv(s0);
    ExecInv(s0, moves, s0.value);
    var s := Exec(s0, moves);
    if s.panic == {} {
      FlagMeansFree(s, s0.value);
      assert s.holder.Keys == {} <==> s.holder == map[];
    }
  }

  /** A semaphore's value is its initial value plus completed signals minus
      completed waits, and never negative. */
  lemma SemaphoreLaw(s0: State, moves: seq<Move>, sem: Sem)
    requires Start(s0) && Legal(s0, moves) && sem in s0.value
    ensures Offered(s0, moves)
    ensures var s := Exec(s0, moves);
      sem in s.value && 0 <= s.value[sem] == s0.value[sem] + Signals(s.log, sem) - Waits(s.log, sem)
  {
    StartInv(s0);
    ExecInv(s0, moves, s0.value);
  }

  /** A state in which the invariant holds and the running thread is in client code. */
  ghost predicate AtClient(s: State, init: map<Sem, int>) {
    Inv(s, init) && s.panic == {} && Me(s).pc == Client
  }

  /** Taking a lock panics exactly when the caller already holds it. */
  lemma LockPanicsIff(s: State, init: map<Sem, int>, lk: nat)
    requires AtClient(s, init)
    ensures var moves := [CallLock(lk), Go(0), Go(0)];
      Offered(s, moves) && (LockHeld in Exec(s, moves).panic <==> !Disciplined(s, CallLock(lk)))
  {
    var s1 := Next(s, CallLock(lk));
    var s2 := Next(s1, Go(0));
    var s3 := Next(s2, Go(0));
    assert Exec(s1, [Go(0), Go(0)]) == s3 && Offered(s1, [Go(0), Go(0)]) by {
      TwoMoves(s1, Go(0), Go(0));
    }
    assert [CallLock(lk), Go(0), Go(0)][1..] == [Go(0), Go(0)];
  }

  /** Releasing a lock panics exactly when nobody holds it, which under the
      invariant is when the caller does not. */
  lemma UnlockPanicsIff(s: State, init: map<Sem, int>, lk: nat)
    requires AtClient(s, init)
    ensures var moves := [CallUnlock(lk), Go(0)];
      Offered(s, moves) && (UnlockFree in Exec(s, moves).panic <==> !Disciplined(s, CallUnlock(lk)))
  {
    TwoMoves(s, CallUnlock(lk), Go(0));
  }

  lemma TwoMoves(s: State, a: Move, b: Move)
    requires Enabled(s, a) && Enabled(Next(s, a), b)
    ensures Offered(s, [a, b]) && Exec(s, [a, b]) == Next(Next(s, a), b)
  {
    var t := Next(s, a);
    assert [a, b][1..] == [b] && [b][1..] == [];
    assert Offered(t, [b]);
    assert Exec(t, [b]) == Exec(Next(t, b), []);
  }

  /** A thread that yields while holding a lock sets a trap: the next thread that
      asks for the same lock panics instead of waiting. */
  lemma YieldHoldingLockPanics(s: State, init: map<Sem, int>, lk: nat, other: Tid)
    requires AtClient(s, init) && Spin(lk) in s.holder
    requires other in s.threads && other != s.current && s.threads[other].pc == Client
    ensures Enabled(s, CallYield(other)) && !Disciplined(s, CallYield(other))
    ensures var s1 := Next(s, CallYield(other));
      var moves := [CallLock(lk), Go(0), Go(0)];
      Offered(s1, moves) && LockHeld in Exec(s1, moves).panic
  {
    assert Parked(s, s.threads[other]);
    var s1 := Next(s, CallYield(other));
    var s2 := Next(s1, CallLock(lk));
    assert [CallLock(lk), Go(0), Go(0)][1..] == [Go(0), Go(0)];
    TwoMoves(s2, Go(0), Go(0));
  }
}
