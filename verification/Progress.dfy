/** What one kernel call does when it completes. Interrupts are off while a call
    runs, so nothing can come between its steps: every run that starts with the
    call goes through the same states, and the state it ends in is given outright. */
module Progress {
  import opened Limits
  import opened Machine
  import opened Locking

  /** The next move can only be the running thread's own kernel step. */
  ghost predicate Uninterruptible(s: State) {
    s.panic == {} && s.current in s.threads && !s.flag && Me(s).pc != Client && !Switching(s)
  }

  /** The n next moves are all kernel steps of the running thread. */
  ghost predicate Forced(s: State, n: nat)
    decreases n
  {
    n == 0 || (Uninterruptible(s) && Forced(Advance(s, 0), n - 1))
  }

  ghost function After(s: State, n: nat): State
    requires Forced(s, n)
    decreases n
  {
    if n == 0 then s else After(Advance(s, 0), n - 1)
  }

  /** n kernel steps of the running thread. */
  function Steps(n: nat): (moves: seq<Move>)
    ensures |moves| == n
  {
    if n == 0 then [] else [Go(0)] + Steps(n - 1)
  }

  /** The move is offered, n kernel steps follow it, and whatever moves are
      offered, they lead to s'. */
  ghost predicate Completes(s: State, call: Move, n: nat, s': State) {
    && Offered(s, [call] + Steps(n))
    && forall moves :: |moves| == n + 1 && moves[0] == call && Offered(s, moves) ==> Exec(s, moves) == s'
  }

  lemma {:induction false} ForcedOffered(s: State, n: nat)
    requires Forced(s, n)
    ensures Offered(s, Steps(n))
    decreases n
  {
    if n > 0 {
      assert Steps(n)[1..] == Steps(n - 1);
      ForcedOffered(Advance(s, 0), n - 1);
    }
  }

  lemma {:induction false} ForcedRun(s: State, moves: seq<Move>)
    requires Forced(s, |moves|) && Offered(s, moves)
    ensures Exec(s, moves) == After(s, |moves|)
    decreases |moves|
  {
    if moves != [] {
      assert Next(s, moves[0]) == Advance(s, 0);
      ForcedRun(Advance(s, 0), moves[1..]);
    }
  }

  /** n kernel steps, each the only move offered, lead from s to s'. */
  ghost predicate Reaches(s: State, n: nat, s': State) {
    Forced(s, n) && After(s, n) == s'
  }

  lemma {:induction false} ReachesPlus(s: State, m: nat, t: State, n: nat, u: State)
    requires Reaches(s, m, t) && Reaches(t, n, u)
    ensures Reaches(s, m + n, u)
    decreases m
  {
    hide Advance;
    if m > 0 { ReachesPlus(Advance(s, 0), m - 1, t, n, u); }
  }

  lemma OneStep(s: State)
    requires Uninterruptible(s)
    ensures Reaches(s, 1, Advance(s, 0))
  {
    hide Advance;
    assert Forced(Advance(s, 0), 0);
  }

  lemma CallCompletes(s: State, call: Move, n: nat, s': State)
    requires Enabled(s, call) && Reaches(Next(s, call), n, s')
    ensures Completes(s, call, n, s')
  {
    var s1 := Next(s, call);
    ForcedOffered(s1, n);
    assert ([call] + Steps(n))[1..] == Steps(n);
    forall moves | |moves| == n + 1 && moves[0] == call && Offered(s, moves)
      ensures Exec(s, moves) == s'
    {
      ForcedRun(s1, moves[1..]);
    }
  }

  /** The state behind spin_lock: counter raised, lock held. */
  function Locked(s: State, lk: Lock, k: Return): State
    requires s.current in s.threads
  {
    SetMe(s, Me(s).(intrCnt := Me(s).intrCnt + 1, pc := Continue(k))).(holder := s.holder[lk := s.current])
  }

  lemma ThreeSteps(s: State)
    requires Uninterruptible(s) && Uninterruptible(Advance(s, 0)) && Uninterruptible(Advance(Advance(s, 0), 0))
    ensures Reaches(s, 3, Advance(Advance(Advance(s, 0), 0), 0))
  {
    var s1 := Advance(s, 0);
    var s2 := Advance(s1, 0);
    hide Advance, Uninterruptible, Reaches;
    OneStep(s);
    OneStep(s1);
    OneStep(s2);
    ReachesPlus(s, 1, s1, 1, s2);
    ReachesPlus(s, 2, s2, 1, Advance(s2, 0));
  }

  lemma LockStates(s: State, lk: Lock, k: Return)
    requires s.panic == {} && s.current in s.threads && !s.flag && Me(s).pc == LockInc(lk, k) && lk !in s.holder
    ensures Uninterruptible(s) && Uninterruptible(Advance(s, 0)) && Uninterruptible(Advance(Advance(s, 0), 0))
    ensures Advance(Advance(Advance(s, 0), 0), 0) == Locked(s, lk, k)
  {
    assert Advance(Advance(Advance(s, 0), 0), 0).threads == Locked(s, lk, k).threads;
  }

  lemma LockRun(s: State, lk: Lock, k: Return)
    requires s.panic == {} && s.current in s.threads && !s.flag && Me(s).pc == LockInc(lk, k) && lk !in s.holder
    ensures Reaches(s, 3, Locked(s, lk, k))
  {
    LockStates(s, lk, k);
    hide Reaches, Advance, Locked;
    ThreeSteps(s);
  }

  /** The state behind spin_unlock: counter lowered, lock free, and interrupts on
      if it was the last lock. */
  function Unlocked(s: State, lk: Lock, k: Return): State
    requires s.current in s.threads
  {
    SetMe(s, Me(s).(intrCnt := Me(s).intrCnt - 1, pc := Continue(k)))
      .(holder := s.holder - {lk}, flag := Me(s).intrCnt == 1)
  }

  /** Two steps: the holder is tested and cleared. */
  lemma ClearStates(s: State, lk: Lock, k: Return)
    requires s.panic == {} && s.current in s.threads && !s.flag && Me(s).pc == UnlockTest(lk, k) && lk in s.holder
    ensures Uninterruptible(s) && Uninterruptible(Advance(s, 0))
    ensures Advance(Advance(s, 0), 0) == SetPc(s, UnlockDec(k)).(holder := s.holder - {lk})
  {
    assert Advance(Advance(s, 0), 0).threads == SetPc(s, UnlockDec(k)).threads;
  }

  lemma UnlockStates(s: State, lk: Lock, k: Return)
    requires s.panic == {} && s.current in s.threads && !s.flag && Me(s).pc == UnlockTest(lk, k) && lk in s.holder
    ensures Uninterruptible(s) && Uninterruptible(Advance(s, 0)) && Uninterruptible(Advance(Advance(s, 0), 0))
    ensures var s3 := Advance(Advance(Advance(s, 0), 0), 0);
      if Me(s).intrCnt == 1 then Uninterruptible(s3) && Advance(s3, 0) == Unlocked(s, lk, k)
      else s3 == Unlocked(s, lk, k)
  {
    ClearStates(s, lk, k);
    var s2 := SetPc(s, UnlockDec(k)).(holder := s.holder - {lk});
    var s3 := Advance(s2, 0);
    if Me(s).intrCnt == 1 {
      assert Advance(s3, 0).threads == Unlocked(s, lk, k).threads;
    } else {
      assert s3.threads == Unlocked(s, lk, k).threads;
    }
  }

  function UnlockLength(s: State): nat
    requires s.current in s.threads
  {
    if Me(s).intrCnt == 1 then 4 else 3
  }

  lemma UnlockRun(s: State, lk: Lock, k: Return)
    requires s.panic == {} && s.current in s.threads && !s.flag && Me(s).pc == UnlockTest(lk, k) && lk in s.holder
    ensures Reaches(s, UnlockLength(s), Unlocked(s, lk, k))
  {
    UnlockStates(s, lk, k);
    hide Reaches, Advance, Unlocked;
    ThreeSteps(s);
    var s3 := Advance(Advance(Advance(s, 0), 0), 0);
    if Me(s).intrCnt == 1 {
      OneStep(s3);
      ReachesPlus(s, 3, s3, 1, Advance(s3, 0));
    }
  }

  /** One taken from the semaphore by the running thread, and one added. */
  function Taken(s: State, sem: Sem): State
    requires sem in s.value
  {
    s.(value := s.value[sem := s.value[sem] - 1], log := s.log + [Waited(s.current, sem)])
  }

  function Given(s: State, sem: Sem): State
    requires sem in s.value
  {
    s.(value := s.value[sem := s.value[sem] + 1], log := s.log + [Signalled(s.current, sem)])
  }

  /** The running thread enters spin_lock with interrupts off. */
  function Entering(s: State, lk: Lock, k: Return): State
    requires s.current in s.threads
  {
    SetPc(s, LockInc(lk, k)).(flag := false)
  }

  /** What a locking and an unlocking procedure leave of each other: nothing. */
  lemma LockUnlock(s: State, lk: Lock, k0: Return, k: Return)
    requires s.current in s.threads && lk !in s.holder && (s.flag <==> Me(s).intrCnt == 0)
    ensures Unlocked(SetPc(Locked(Entering(s, lk, k0), lk, k0), UnlockTest(lk, k)), lk, k) == SetPc(s, Continue(k))
  {
    var inside := SetPc(Locked(Entering(s, lk, k0), lk, k0), UnlockTest(lk, k));
    assert Unlocked(inside, lk, k).threads == SetPc(s, Continue(k)).threads;
    assert Unlocked(inside, lk, k).holder == s.holder;
  }

  lemma SamePc(s: State)
    requires s.current in s.threads
    ensures SetPc(s, Me(s).pc) == s
  {
    assert SetPc(s, Me(s).pc).threads == s.threads;
  }

  /* ---- sem_wait ---- */

  lemma WaitStates(s: State, sem: Sem)
    requires s.panic == {} && s.current in s.threads && !s.flag && Me(s).pc == WaitTest(sem) && sem in s.value
    ensures Uninterruptible(s)
    ensures s.value[sem] <= 0 ==> Advance(s, 0) == SetPc(s, UnlockTest(SemLock(sem), ToYield(sem)))
    ensures s.value[sem] > 0 ==> Uninterruptible(Advance(s, 0))
    ensures s.value[sem] > 0 ==>
      Advance(Advance(s, 0), 0) == Taken(SetPc(s, UnlockTest(SemLock(sem), ToClient)), sem)
  {
    if s.value[sem] > 0 {
      assert Advance(Advance(s, 0), 0).threads == SetPc(s, UnlockTest(SemLock(sem), ToClient)).threads;
    }
  }

  /** From the loop test, with a positive value: take one and leave; with zero:
      give the lock back and yield. */
  lemma WaitInside(s: State, sem: Sem)
    requires s.panic == {} && s.current in s.threads && !s.flag && Me(s).pc == WaitTest(sem)
    requires Me(s).intrCnt == 1 && SemLock(sem) in s.holder && sem in s.value
    ensures s.value[sem] > 0 ==>
      Reaches(s, 6, Unlocked(Taken(SetPc(s, UnlockTest(SemLock(sem), ToClient)), sem), SemLock(sem), ToClient))
    ensures s.value[sem] <= 0 ==>
      Reaches(s, 5, Unlocked(SetPc(s, UnlockTest(SemLock(sem), ToYield(sem))), SemLock(sem), ToYield(sem)))
  {
    WaitStates(s, sem);
    hide Reaches, Advance, Uninterruptible, Unlocked;
    var s1 := Advance(s, 0);
    OneStep(s);
    if s.value[sem] > 0 {
      var s2 := Advance(s1, 0);
      OneStep(s1);
      ReachesPlus(s, 1, s1, 1, s2);
      UnlockRun(s2, SemLock(sem), ToClient);
      ReachesPlus(s, 2, s2, 4, Unlocked(s2, SemLock(sem), ToClient));
    } else {
      UnlockRun(s1, SemLock(sem), ToYield(sem));
      ReachesPlus(s, 1, s1, 4, Unlocked(s1, SemLock(sem), ToYield(sem)));
    }
  }

  lemma CountInside(s: State, lk: Lock, sem: Sem)
    requires sem in s.value && s.current in s.threads
    ensures Unlocked(Taken(s, sem), lk, ToClient) == Taken(Unlocked(s, lk, ToClient), sem)
    ensures Unlocked(Given(s, sem), lk, ToClient) == Given(Unlocked(s, lk, ToClient), sem)
  {
  }

  /** A thread behind spin_lock holds the lock, with interrupts off. */
  ghost predicate Inside(s: State, lk: Lock, l: State)
    requires s.current in s.threads
  {
    && l.panic == {} && l.current == s.current && l.current in l.threads && !l.flag
    && Me(l).intrCnt == Me(s).intrCnt + 1 && lk in l.holder && l.value == s.value && l.log == s.log
  }

  lemma EnterRun(s: State, lk: Lock, k: Return)
    requires s.panic == {} && s.current in s.threads && lk !in s.holder
    ensures var e := Entering(s, lk, k);
      && e.current in e.threads && Reaches(e, 3, Locked(e, lk, k))
      && Inside(s, lk, Locked(e, lk, k)) && Me(Locked(e, lk, k)).pc == Continue(k)
  {
    LockRun(Entering(s, lk, k), lk, k);
    hide Reaches;
  }

  lemma TakenExit(s: State, sem: Sem)
    requires s.current in s.threads && (s.flag <==> Me(s).intrCnt == 0) && sem in s.value && SemLock(sem) !in s.holder
    ensures var lk, k := SemLock(sem), ToWait(sem);
      Unlocked(Taken(SetPc(Locked(Entering(s, lk, k), lk, k), UnlockTest(lk, ToClient)), sem), lk, ToClient)
      == Taken(SetPc(s, Client), sem)
  {
    var lk, k := SemLock(sem), ToWait(sem);
    LockUnlock(s, lk, k, ToClient);
    CountInside(SetPc(Locked(Entering(s, lk, k), lk, k), UnlockTest(lk, ToClient)), lk, sem);
    hide Locked, Unlocked;
  }

  /** From the entry of the semaphore's lock to the end of the round. */
  lemma TakeRound(s: State, sem: Sem)
    requires s.panic == {} && s.current in s.threads && s.flag && Me(s).intrCnt == 0
    requires SemLock(sem) !in s.holder && sem in s.value && s.value[sem] > 0
    ensures Reaches(Entering(s, SemLock(sem), ToWait(sem)), 9, Taken(SetPc(s, Client), sem))
  {
    var lk, k := SemLock(sem), ToWait(sem);
    EnterRun(s, lk, k);
    TakenExit(s, sem);
    hide Reaches, Unlocked, Locked, Entering;
    var l := Locked(Entering(s, lk, k), lk, k);
    WaitInside(l, sem);
    ReachesPlus(Entering(s, lk, k), 3, l, 6, Taken(SetPc(s, Client), sem));
  }

  lemma YieldRound(s: State, sem: Sem)
    requires s.panic == {} && s.current in s.threads && s.flag && Me(s).intrCnt == 0
    requires SemLock(sem) !in s.holder && sem in s.value && s.value[sem] <= 0
    ensures Reaches(Entering(s, SemLock(sem), ToWait(sem)), 8, SetPc(s, WaitYield(sem)))
  {
    var lk, k := SemLock(sem), ToWait(sem);
    EnterRun(s, lk, k);
    LockUnlock(s, lk, k, ToYield(sem));
    hide Reaches, Unlocked, Locked, Entering;
    var l := Locked(Entering(s, lk, k), lk, k);
    WaitInside(l, sem);
    ReachesPlus(Entering(s, lk, k), 3, l, 5, SetPc(s, WaitYield(sem)));
  }

  /** A completed sem_wait. With a positive value it takes one, records it, and
      changes nothing else. With value zero it comes to its yield, without a lock
      and with interrupts on, and nothing else has changed. */
  lemma WaitCompletes(s: State, init: map<Sem, int>, sem: Sem)
    requires AtClient(s, init) && HoldsNone(s) && sem in s.value
    ensures s.value[sem] > 0 ==> Completes(s, CallWait(sem), 9, Taken(s, sem))
    ensures s.value[sem] == 0 ==> Completes(s, CallWait(sem), 8, SetPc(s, WaitYield(sem)))
  {
    FreeRunner(s, init);
    SamePc(s);
    hide Inv, Reaches, Completes;
    if s.value[sem] > 0 {
      TakeRound(s, sem);
      CallCompletes(s, CallWait(sem), 9, Taken(s, sem));
    } else {
      YieldRound(s, sem);
      CallCompletes(s, CallWait(sem), 8, SetPc(s, WaitYield(sem)));
    }
  }

  /** The same round after a yield: what the thread found at its first try does
      not matter, only the value when it runs again. */
  lemma RelockCompletes(s: State, init: map<Sem, int>, sem: Sem, next: Tid)
    requires Inv(s, init) && s.panic == {} && Me(s).pc == Relock(sem)
    ensures sem in s.value
    ensures s.value[sem] > 0 ==> Completes(s, Go(next), 9, Taken(SetPc(s, Client), sem))
    ensures s.value[sem] == 0 ==> Completes(s, Go(next), 8, SetPc(s, WaitYield(sem)))
  {
    FreeRunner(s, init);
    RelockEnters(s, sem, next);
    hide Inv, Reaches, Completes, Enabled, Next, Entering;
    if s.value[sem] > 0 {
      TakeRound(s, sem);
      CallCompletes(s, Go(next), 9, Taken(SetPc(s, Client), sem));
    } else {
      YieldRound(s, sem);
      CallCompletes(s, Go(next), 8, SetPc(s, WaitYield(sem)));
    }
  }

  lemma RelockEnters(s: State, sem: Sem, next: Tid)
    requires s.panic == {} && s.current in s.threads && Me(s).pc == Relock(sem)
    ensures Enabled(s, Go(next)) && Next(s, Go(next)) == Entering(s, SemLock(sem), ToWait(sem))
  {
  }

  lemma FreeRunner(s: State, init: map<Sem, int>)
    requires Inv(s, init) && s.panic == {}
    requires (Me(s).pc == Client && HoldsNone(s)) || Me(s).pc.Relock?
    ensures s.flag && Me(s).intrCnt == 0 && s.holder == map[]
    ensures Me(s).pc.Relock? ==> Me(s).pc.sem in s.value
  {
    assert s.holder.Keys == {};
  }

  /* ---- sem_signal ---- */

  lemma SignalState(s: State, sem: Sem)
    requires s.panic == {} && s.current in s.threads && !s.flag && Me(s).pc == SignalInc(sem) && sem in s.value
    ensures Uninterruptible(s) && Advance(s, 0) == Given(SetPc(s, UnlockTest(SemLock(sem), ToClient)), sem)
  {
  }

  lemma SignalInside(s: State, sem: Sem)
    requires s.panic == {} && s.current in s.threads && !s.flag && Me(s).pc == SignalInc(sem)
    requires SemLock(sem) in s.holder && sem in s.value
    ensures Reaches(s, 1 + UnlockLength(s),
      Unlocked(Given(SetPc(s, UnlockTest(SemLock(sem), ToClient)), sem), SemLock(sem), ToClient))
  {
    SignalState(s, sem);
    hide Reaches, Advance, Uninterruptible, Unlocked;
    var g := Advance(s, 0);
    OneStep(s);
    UnlockRun(g, SemLock(sem), ToClient);
    ReachesPlus(s, 1, g, UnlockLength(g), Unlocked(g, SemLock(sem), ToClient));
  }

  lemma SignalRound(s: State, sem: Sem)
    requires s.panic == {} && s.current in s.threads && (s.flag <==> Me(s).intrCnt == 0) && sem in s.value
    requires Me(s).intrCnt >= 0 && SemLock(sem) !in s.holder
    ensures Reaches(Entering(s, SemLock(sem), ToSignal(sem)), if s.flag then 8 else 7, Given(SetPc(s, Client), sem))
  {
    var lk, k := SemLock(sem), ToSignal(sem);
    EnterRun(s, lk, k);
    SignalExit(s, sem);
    hide Reaches, Unlocked, Locked, Entering;
    var l := Locked(Entering(s, lk, k), lk, k);
    SignalInside(l, sem);
    ReachesPlus(Entering(s, lk, k), 3, l, 1 + UnlockLength(l), Given(SetPc(s, Client), sem));
  }

  lemma SignalExit(s: State, sem: Sem)
    requires s.current in s.threads && (s.flag <==> Me(s).intrCnt == 0) && sem in s.value && SemLock(sem) !in s.holder
    ensures var lk, k := SemLock(sem), ToSignal(sem);
      Unlocked(Given(SetPc(Locked(Entering(s, lk, k), lk, k), UnlockTest(lk, ToClient)), sem), lk, ToClient)
      == Given(SetPc(s, Client), sem)
  {
    var lk, k := SemLock(sem), ToSignal(sem);
    LockUnlock(s, lk, k, ToClient);
    CountInside(SetPc(Locked(Entering(s, lk, k), lk, k), UnlockTest(lk, ToClient)), lk, sem);
    hide Locked, Unlocked;
  }

  /** A completed sem_signal, with or without locks held: one more, recorded, and
      nothing else. It never waits. */
  lemma SignalCompletes(s: State, init: map<Sem, int>, sem: Sem)
    requires AtClient(s, init) && sem in s.value
    ensures Completes(s, CallSignal(sem), if HoldsNone(s) then 8 else 7, Given(s, sem))
  {
    ClientRunner(s, init);
    SamePc(s);
    SignalRound(s, sem);
    hide Inv, Reaches, Completes, HoldsNone;
    CallCompletes(s, CallSignal(sem), if HoldsNone(s) then 8 else 7, Given(s, sem));
  }

  lemma ClientRunner(s: State, init: map<Sem, int>)
    requires AtClient(s, init)
    ensures Me(s).intrCnt == |s.holder.Keys| && (HoldsNone(s) <==> Me(s).intrCnt == 0)
    ensures s.flag <==> Me(s).intrCnt == 0
    ensures forall sem :: SemLock(sem) !in s.holder
  {
    if HoldsNone(s) {
      assert s.holder.Keys == {};
    } else {
      var lk :| lk in s.holder;
      assert lk in s.holder.Keys;
    }
  }

  /* ---- spin_lock, spin_unlock ---- */

  /** A completed spin_lock: the lock is held and interrupts are off. */
  lemma LockCompletes(s: State, init: map<Sem, int>, lk: nat)
    requires AtClient(s, init) && Disciplined(s, CallLock(lk))
    ensures Completes(s, CallLock(lk), 3,
      SetMe(s, Me(s).(intrCnt := Me(s).intrCnt + 1)).(holder := s.holder[Spin(lk) := s.current], flag := false))
  {
    var s' := SetMe(s, Me(s).(intrCnt := Me(s).intrCnt + 1)).(holder := s.holder[Spin(lk) := s.current], flag := false);
    var e := Entering(s, Spin(lk), ToClient);
    LockedFrom(s, Spin(lk), s');
    LockRun(e, Spin(lk), ToClient);
    hide Locked, Completes, Reaches, Inv;
    CallCompletes(s, CallLock(lk), 3, s');
  }

  lemma LockedFrom(s: State, lk: Lock, s': State)
    requires s.current in s.threads && Me(s).pc == Client
    requires s' == SetMe(s, Me(s).(intrCnt := Me(s).intrCnt + 1)).(holder := s.holder[lk := s.current], flag := false)
    ensures Locked(Entering(s, lk, ToClient), lk, ToClient) == s'
  {
    assert Locked(Entering(s, lk, ToClient), lk, ToClient).threads == s'.threads;
  }

  lemma UnlockedFrom(s: State, lk: Lock, s': State)
    requires s.current in s.threads && Me(s).pc == Client
    requires s' ==
      SetMe(s, Me(s).(intrCnt := Me(s).intrCnt - 1)).(holder := s.holder - {lk}, flag := Me(s).intrCnt == 1)
    ensures Unlocked(SetPc(s, UnlockTest(lk, ToClient)), lk, ToClient) == s'
  {
    assert Unlocked(SetPc(s, UnlockTest(lk, ToClient)), lk, ToClient).threads == s'.threads;
  }

  lemma LastLock(holder: map<Lock, Tid>, lk: Lock)
    requires lk in holder
    ensures holder - {lk} == map[] <==> |holder.Keys| == 1
  {
    var rest := holder - {lk};
    assert rest.Keys == holder.Keys - {lk} && |rest.Keys| == |holder.Keys| - 1;
    assert rest == map[] <==> rest.Keys == {};
  }

  /** A completed spin_unlock: the lock is free, and interrupts are on exactly
      when it was the caller's last. */
  lemma UnlockCompletes(s: State, init: map<Sem, int>, lk: nat)
    requires AtClient(s, init) && Disciplined(s, CallUnlock(lk))
    ensures var rest := s.holder - {Spin(lk)};
      Completes(s, CallUnlock(lk), if rest == map[] then 4 else 3,
        SetMe(s, Me(s).(intrCnt := Me(s).intrCnt - 1)).(holder := rest, flag := rest == map[]))
  {
    ClientRunner(s, init);
    LastLock(s.holder, Spin(lk));
    var rest := s.holder - {Spin(lk)};
    var s' := SetMe(s, Me(s).(intrCnt := Me(s).intrCnt - 1)).(holder := rest, flag := rest == map[]);
    var e := SetPc(s, UnlockTest(Spin(lk), ToClient));
    UnlockedFrom(s, Spin(lk), s');
    UnlockRun(e, Spin(lk), ToClient);
    hide Unlocked, Completes, Reaches;
    CallCompletes(s, CallUnlock(lk), UnlockLength(e), s');
  }

  /* ---- creation, teardown, switches ---- */

  lemma TwoSteps(s: State)
    requires Uninterruptible(s) && Uninterruptible(Advance(s, 0))
    ensures Reaches(s, 2, Advance(Advance(s, 0), 0))
  {
    var s1 := Advance(s, 0);
    var s2 := Advance(s1, 0);
    hide Advance, Uninterruptible, Reaches;
    OneStep(s);
    OneStep(s1);
    ReachesPlus(s, 1, s1, 1, s2);
  }

  ghost predicate LowestFree(threads: map<Tid, Thread>, t: Tid) {
    t < NR_THREADS && t !in threads && forall j: Tid :: j < t ==> j in threads
  }

  lemma FirstIsLowest(threads: map<Tid, Thread>)
    ensures forall t: Tid :: LowestFree(threads, t) <==> t < NR_THREADS && t == FirstFree(threads, 0)
  {
  }

  lemma SameFree(threads: map<Tid, Thread>, threads': map<Tid, Thread>)
    requires threads.Keys == threads'.Keys
    ensures FirstFree(threads, 0) == FirstFree(threads', 0)
  {
    var f, f' := FirstFree(threads, 0), FirstFree(threads', 0);
    assert f in threads <==> f in threads';
    assert f' in threads <==> f' in threads';
  }

  lemma CreateStates(s: State, t: Tid)
    requires s.panic == {} && s.current in s.threads && Me(s).pc == Client && LowestFree(s.threads, t)
    ensures var e := SetPc(s, Creating(true, s.flag)).(flag := false);
      && Uninterruptible(e) && Uninterruptible(Advance(e, 0))
      && Advance(Advance(e, 0), 0) == s.(threads := s.threads[t := Thread(Ready, 0, true, Client)])
  {
    var e := SetPc(s, Creating(true, s.flag)).(flag := false);
    FirstIsLowest(s.threads);
    SameFree(s.threads, e.threads);
    hide FirstFree, LowestFree;
    assert Advance(Advance(e, 0), 0).threads == s.threads[t := Thread(Ready, 0, true, Client)];
  }

  /** A completed creation: the lowest free slot of the table holds a new thread
      that is ready to start, and the caller goes on as it was. */
  lemma CreateCompletes(s: State, init: map<Sem, int>, t: Tid)
    requires AtClient(s, init) && LowestFree(s.threads, t)
    ensures Completes(s, CallCreate(true), 2, s.(threads := s.threads[t := Thread(Ready, 0, true, Client)]))
  {
    CreateStates(s, t);
    hide Inv, Reaches, Completes, Advance, Uninterruptible, LowestFree;
    var e := SetPc(s, Creating(true, s.flag)).(flag := false);
    TwoSteps(e);
    CallCompletes(s, CallCreate(true), 2, s.(threads := s.threads[t := Thread(Ready, 0, true, Client)]));
  }

  /** Without a slot or a stack the creation panics. */
  lemma CreateFails(s: State, init: map<Sem, int>, stackOk: bool)
    requires AtClient(s, init) && (!stackOk || forall t: Tid :: !LowestFree(s.threads, t))
    ensures Enabled(s, CallCreate(stackOk))
    ensures var e := Next(s, CallCreate(stackOk));
      Enabled(e, Go(0)) && Next(e, Go(0)).panic == {NoThreadSlot}
  {
    var e := Next(s, CallCreate(stackOk));
    FirstIsLowest(s.threads);
    SameFree(s.threads, e.threads);
    hide Inv, LowestFree, FirstFree;
    assert stackOk ==> !LowestFree(s.threads, FirstFree(s.threads, 0));
    CreatePanics(e, stackOk);
  }

  lemma CreatePanics(e: State, stackOk: bool)
    requires e.panic == {} && e.current in e.threads && Me(e).pc.Creating? && Me(e).pc.stackOk == stackOk
    requires !stackOk || FirstFree(e.threads, 0) == NR_THREADS
    ensures Enabled(e, Go(0)) && Next(e, Go(0)).panic == {NoThreadSlot}
  {
    hide FirstFree;
  }

  lemma TeardownStates(s: State, t: Tid)
    requires s.panic == {} && s.current in s.threads && Me(s).pc == Client && t != s.current
    ensures var e := SetPc(s, Tearing(t, s.flag)).(flag := false);
      && Uninterruptible(e) && Uninterruptible(Advance(e, 0))
      && Advance(Advance(e, 0), 0) == s.(threads := s.threads - {t})
  {
    var e := SetPc(s, Tearing(t, s.flag)).(flag := false);
    assert Advance(Advance(e, 0), 0).threads == s.threads - {t};
  }

  /** A completed teardown of another thread: that thread is gone, and nothing else changed. */
  lemma TeardownCompletes(s: State, init: map<Sem, int>, t: Tid)
    requires AtClient(s, init) && t in s.threads && t != s.current
    ensures Completes(s, CallTeardown(t), 2, s.(threads := s.threads - {t}))
  {
    TeardownStates(s, t);
    hide Inv, Reaches, Completes, Advance, Uninterruptible;
    TwoSteps(SetPc(s, Tearing(t, s.flag)).(flag := false));
    CallCompletes(s, CallTeardown(t), 2, s.(threads := s.threads - {t}));
  }

  /** A thread that tears itself down is gone with the same step that gives the
      CPU, with interrupts on, to another one. */
  lemma TeardownSelfCompletes(s: State, init: map<Sem, int>, next: Tid)
    requires AtClient(s, init) && HoldsNone(s) && next in s.threads && next != s.current
    ensures Enabled(s, CallTeardown(s.current))
    ensures var e := Next(s, CallTeardown(s.current));
      Enabled(e, Go(next)) && Left(s, next, Next(e, Go(next)))
  {
    RunnerFlag(s, init);
    hide Inv, Left;
    LeaveEffect(s, SetPc(s, Tearing(s.current, s.flag)).(flag := false), next);
    hide Advance, AboutToSwitch, Schedulable;
  }

  lemma LeaveEffect(s: State, e: State, next: Tid)
    requires s.current in s.threads && next in s.threads && next != s.current
    requires e == SetPc(s, Tearing(s.current, s.flag)).(flag := false) && s.panic == {}
    requires forall t :: t in s.threads && t != s.current ==> s.threads[t].status == Ready && s.threads[t].savedFlag
    ensures Schedulable(AboutToSwitch(e), next) && Left(s, next, Advance(e, next))
  {
    assert AboutToSwitch(e).threads == s.threads - {s.current};
  }

  ghost predicate Left(s: State, next: Tid, s': State)
    requires next in s.threads
  {
    && s'.threads == (s.threads - {s.current})[next := s.threads[next].(status := Running)]
    && s' == s.(threads := s'.threads, current := next, flag := true)
  }

  /** The CPU goes to next, with interrupts on; the thread that ran waits with
      the pc it is to continue at. Everything else is untouched. */
  ghost predicate Switched(s: State, pc: Pc, next: Tid, s': State)
    requires s.current in s.threads
  {
    && next in s.threads && s'.current == next && s'.flag
    && s'.threads.Keys == s.threads.Keys
    && (forall t :: t in s.threads ==>
         s'.threads[t].intrCnt == s.threads[t].intrCnt
         && s'.threads[t].pc == (if t == s.current then pc else s.threads[t].pc)
         && (s'.threads[t].status == Running <==> t == next))
    && s'.holder == s.holder && s'.value == s.value && s'.log == s.log && s'.panic == s.panic
  }

  lemma SwitchEffect(s: State, pc: Pc, next: Tid)
    requires s.current in s.threads && next in s.threads && s.flag && Me(s).status == Running && s.panic == {}
    requires next != s.current ==> s.threads[next].savedFlag
    requires forall t :: t in s.threads && t != s.current ==> s.threads[t].status == Ready
    ensures Switched(s, pc, next, Switch(SetPc(s, pc), next))
  {
  }

  lemma RunnerFlag(s: State, init: map<Sem, int>)
    requires Inv(s, init) && s.panic == {}
    ensures Me(s).status == Running && (Me(s).pc.WaitYield? || (Me(s).pc == Client && HoldsNone(s)) ==> s.flag)
    ensures forall t :: t in s.threads && t != s.current ==> s.threads[t].status == Ready && s.threads[t].savedFlag
  {
    FlagMeansFree(s, init);
    forall t | t in s.threads && t != s.current ensures s.threads[t].status == Ready && s.threads[t].savedFlag {
      assert Parked(s, s.threads[t]);
    }
  }

  /** A timer interrupt, a yield of client code, and the yield inside sem_wait
      give the CPU to a live thread. */
  lemma SwitchCompletes(s: State, init: map<Sem, int>, m: Move)
    requires Inv(s, init) && Enabled(s, m) && Disciplined(s, m)
    requires m.Timer? || m.CallYield? || (m.Go? && Me(s).pc.WaitYield?)
    ensures Switched(s, if m.Go? then Relock(Me(s).pc.sem) else Me(s).pc, m.next, Next(s, m))
  {
    RunnerFlag(s, init);
    var pc := if m.Go? then Relock(Me(s).pc.sem) else Me(s).pc;
    hide Inv, Switched;
    SamePc(s);
    assert IsReady(Preempt(SetPc(s, pc)), s.current);
    SwitchEffect(s, pc, m.next);
  }

  /** Any live thread can be the next one. */
  lemma AnyoneNext(s: State, init: map<Sem, int>, t: Tid)
    requires Inv(s, init) && s.panic == {} && t in s.threads
    ensures s.flag ==> Enabled(s, Timer(t))
    ensures Me(s).pc == Client && HoldsNone(s) ==> Enabled(s, CallYield(t))
    ensures Me(s).pc.WaitYield? ==> Enabled(s, Go(t))
  {
    assert t != s.current ==> Parked(s, s.threads[t]);
  }

  /** A machine that has not panicked can always move within the discipline. */
  lemma NeverStuck(s: State, init: map<Sem, int>)
    requires Inv(s, init) && s.panic == {}
    ensures exists m :: Enabled(s, m) && Disciplined(s, m)
  {
    if Me(s).pc == Client {
      assert Enabled(s, ClientMark(0)) && Disciplined(s, ClientMark(0));
    } else if !Switching(s) {
      assert Enabled(s, Go(0)) && Disciplined(s, Go(0));
    } else {
      var s0 := AboutToSwitch(s);
      var next: Tid :| IsReady(Preempt(s0), next) || forall t :: !IsReady(Preempt(s0), t);
      assert Schedulable(s0, next);
      assert Enabled(s, Go(next)) && Disciplined(s, Go(next));
    }
  }

  /** The scheduler finds nobody exactly when the last thread tears itself down. */
  lemma NobodyReadyIff(s: State, init: map<Sem, int>, m: Move)
    requires Inv(s, init) && Enabled(s, m) && Disciplined(s, m)
    ensures NoReadyThread in Next(s, m).panic <==>
      m.Go? && Me(s).pc.Tearing? && Me(s).pc.tid == s.current && s.threads.Keys == {s.current}
  {
    RunnerFlag(s, init);
    hide Inv, Schedulable;
    if m.Go? && Me(s).pc.Tearing? && Me(s).pc.tid == s.current {
      LastOne(s, m.next);
    } else if m.Go? && !Me(s).pc.WaitYield? {
      QuietGo(s, m.next);
    } else if m.Go? || m.CallYield? || m.Timer? {
      SwitchCompletes(s, init, m);
    }
  }

  lemma LastOne(s: State, next: Tid)
    requires s.panic == {} && s.current in s.threads && Me(s).pc.Tearing? && Me(s).pc.tid == s.current
    requires forall t :: t in s.threads && t != s.current ==> s.threads[t].status == Ready
    requires Schedulable(AboutToSwitch(s), next)
    ensures NoReadyThread in Advance(s, next).panic <==> s.threads.Keys == {s.current}
  {
    var s0 := AboutToSwitch(s);
    assert Preempt(s0) == s0;
    if t :| t in s.threads && t != s.current {
      assert IsReady(s0, t);
    } else {
      assert s.threads.Keys == {s.current};
    }
  }

  lemma QuietGo(s: State, next: Tid)
    requires s.panic == {} && s.current in s.threads && !Switching(s)
    ensures NoReadyThread !in Advance(s, next).panic
  {
    hide FirstFree, Continue, Switch;
    if Me(s).pc.Creating? || Me(s).pc.Tearing? || Me(s).pc.Restoring? {
      QuietTable(s, next);
    }
  }

  lemma QuietTable(s: State, next: Tid)
    requires s.panic == {} && s.current in s.threads && !Switching(s)
    requires Me(s).pc.Creating? || Me(s).pc.Tearing? || Me(s).pc.Restoring?
    ensures NoReadyThread !in Advance(s, next).panic
  {
    hide FirstFree, Continue, Switch;
  }
}
