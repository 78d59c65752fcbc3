/** The kernel's threads, spinlocks and semaphores as an interleaving machine on
    one CPU. Every store of the locks and semaphores (interrupt flag, nesting
    counter, lock holder, semaphore value) is a step of its own, and a timer
    interrupt may strike between any two steps at which the interrupt flag is on.
    What creation and teardown store between their two flag writes, where no
    other thread can run, is one step. */
module Machine {
  import opened Limits

  type Tid = nat
  type Sem = nat

  /** Client spinlocks, and the lock embedded in each semaphore. */
  datatype Lock = Spin(id: nat) | SemLock(sem: Sem)

  /** Where a locking or unlocking procedure returns to. */
  datatype Return = ToClient | ToWait(sem: Sem) | ToSignal(sem: Sem) | ToYield(sem: Sem)

  /** What a thread does next. */
  datatype Pc =
    | Client                            // free to start any kernel call
    | LockInc(lk: Lock, k: Return)      // flag cleared; counter increment next
    | LockTest(lk: Lock, k: Return)     // test of the holder next
    | LockSet(lk: Lock, k: Return)      // store of the holder next
    | UnlockTest(lk: Lock, k: Return)   // test of the holder next
    | UnlockClear(lk: Lock, k: Return)  // clearing of the holder next
    | UnlockDec(k: Return)              // counter decrement next
    | UnlockIntr(k: Return)             // counter reached zero; set the flag next
    | WaitTest(sem: Sem)                // loop test of sem_wait
    | WaitDec(sem: Sem)                 // decrement of the value next
    | WaitYield(sem: Sem)               // yield inside sem_wait
    | Relock(sem: Sem)                  // back from the yield, lock again
    | SignalInc(sem: Sem)               // increment of the value next
    | Creating(stackOk: bool, saved: bool) // flag cleared; install the new thread
    | Tearing(tid: Tid, saved: bool)    // flag cleared; remove the thread
    | Restoring(saved: bool)            // write the saved flag back

  datatype Status = Ready | Running

  /** savedFlag is the interrupt flag kept in the thread's saved registers. */
  datatype Thread = Thread(status: Status, intrCnt: int, savedFlag: bool, pc: Pc)

  datatype Panic = LockHeld | UnlockFree | NoThreadSlot | NoReadyThread

  /** Completed operations, in order. Mark is any private action of a client. */
  datatype Event = Waited(tid: Tid, sem: Sem) | Signalled(tid: Tid, sem: Sem) | Mark(tid: Tid, tag: nat)


  datatype State = State(
    threads: map<Tid, Thread>,
    current: Tid,                // this_thread
    flag: bool,                  // the CPU's interrupt flag
    holder: map<Lock, Tid>,      // absent: no holder
    value: map<Sem, int>,        // initialised semaphores
    log: seq<Event>,
    panic: set<Panic>)

  /** A move of the machine. Calls are made by the running thread from client
      code; Go executes its next kernel step; Timer preempts it. */
  datatype Move =
    | CallLock(lk: nat)
    | CallUnlock(lk: nat)
    | CallWait(sem: Sem)
    | CallSignal(sem: Sem)
    | CallYield(next: Tid)
    | CallCreate(stackOk: bool)  // whether the stack allocation succeeds
    | CallTeardown(tid: Tid)
    | ClientMark(tag: nat)
    | Go(next: Tid)
    | Timer(next: Tid)

  function Me(s: State): Thread
    requires s.current in s.threads
  {
    s.threads[s.current]
  }

  function SetMe(s: State, t: Thread): State {
    s.(threads := s.threads[s.current := t])
  }

  function SetPc(s: State, pc: Pc): State
    requires s.current in s.threads
  {
    SetMe(s, Me(s).(pc := pc))
  }

  function Continue(k: Return): Pc {
    match k
    case ToClient => Client
    case ToWait(sem) => WaitTest(sem)
    case ToSignal(sem) => SignalInc(sem)
    case ToYield(sem) => WaitYield(sem)
  }

  predicate IsReady(s: State, t: Tid) {
    t in s.threads && s.threads[t].status == Ready
  }

  /** What the interrupt handler does first: store the flag with the interrupted
      thread's registers and demote the thread from running. */
  function Preempt(s: State): State {
    if s.current in s.threads then SetMe(s, Me(s).(status := Ready, savedFlag := s.flag)) else s
  }

  /** Resume a ready thread (possibly the same one) with its own flag. */
  function Switch(s: State, next: Tid): State {
    var s1 := Preempt(s);
    if IsReady(s1, next) then
      s1.(threads := s1.threads[next := s1.threads[next].(status := Running)],
          current := next, flag := s1.threads[next].savedFlag)
    else s1.(panic := s1.panic + {NoReadyThread})
  }

  /** The scheduler picks a ready thread whenever there is one. */
  ghost predicate Schedulable(s: State, next: Tid) {
    IsReady(Preempt(s), next) || forall t :: !IsReady(Preempt(s), t)
  }

  /** The lowest empty slot of the thread table from i on; NR_THREADS if none. */
  function FirstFree(threads: map<Tid, Thread>, i: nat): (t: nat)
    requires i <= NR_THREADS
    ensures i <= t <= NR_THREADS && (t < NR_THREADS ==> t !in threads)
    ensures forall j :: i <= j < t ==> j in threads
    decreases NR_THREADS - i
  {
    if i == NR_THREADS || i !in threads then i else FirstFree(threads, i + 1)
  }

  /** The client discipline: release only what you hold, never take a lock twice,
      never yield or wait while holding a lock, tear down only live threads, and
      yourself only without locks. */
  ghost predicate Disciplined(s: State, m: Move)
    requires s.current in s.threads
  {
    match m
    case CallLock(lk) => Spin(lk) !in s.holder || s.holder[Spin(lk)] != s.current
    case CallUnlock(lk) => Spin(lk) in s.holder && s.holder[Spin(lk)] == s.current
    case CallWait(sem) => HoldsNone(s)
    case CallYield(_) => HoldsNone(s)
    case CallTeardown(t) => t in s.threads && (t == s.current ==> HoldsNone(s))
    case _ => true
  }

  ghost predicate HoldsNone(s: State) {
    forall lk :: lk in s.holder ==> s.holder[lk] != s.current
  }

  /** Which moves the machine itself offers. */
  ghost predicate Enabled(s: State, m: Move) {
    && s.panic == {} && s.current in s.threads
    && match m
       case Timer(next) => s.flag && Schedulable(s, next)
       case Go(next) => Me(s).pc != Client && (Switching(s) ==> Schedulable(AboutToSwitch(s), next))
       case CallYield(next) => Me(s).pc == Client && Schedulable(s, next)
       case CallWait(sem) => Me(s).pc == Client && sem in s.value
       case CallSignal(sem) => Me(s).pc == Client && sem in s.value
       case _ => Me(s).pc == Client
  }

  predicate Switching(s: State)
    requires s.current in s.threads
  {
    Me(s).pc.WaitYield? || (Me(s).pc.Tearing? && Me(s).pc.tid == s.current)
  }

  function AboutToSwitch(s: State): State
    requires s.current in s.threads
  {
    match Me(s).pc
    case Tearing(t, _) => s.(threads := s.threads - {t})
    case WaitYield(sem) => SetPc(s, Relock(sem))
    case _ => s
  }

  /** One move. */
  ghost function Next(s: State, m: Move): State
    requires Enabled(s, m)
  {
    match m
    case CallLock(lk) => SetPc(s, LockInc(Spin(lk), ToClient)).(flag := false)
    case CallUnlock(lk) => SetPc(s, UnlockTest(Spin(lk), ToClient))
    case CallWait(sem) => SetPc(s, LockInc(SemLock(sem), ToWait(sem))).(flag := false)
    case CallSignal(sem) => SetPc(s, LockInc(SemLock(sem), ToSignal(sem))).(flag := false)
    case CallYield(next) => Switch(s, next)
    case CallCreate(stackOk) => SetPc(s, Creating(stackOk, s.flag)).(flag := false)
    case CallTeardown(t) => SetPc(s, Tearing(t, s.flag)).(flag := false)
    case ClientMark(tag) => s.(log := s.log + [Mark(s.current, tag)])
    case Timer(next) => Switch(s, next)
    case Go(next) => Advance(s, next)
  }

  /** The running thread's next kernel step. */
  function Advance(s: State, next: Tid): State
    requires s.current in s.threads
  {
    var me := Me(s);
    match me.pc
    case Client => s
    case LockInc(lk, k) => SetMe(s, me.(intrCnt := me.intrCnt + 1, pc := LockTest(lk, k)))
    case LockTest(lk, k) =>
      if lk in s.holder then s.(panic := s.panic + {LockHeld}) else SetPc(s, LockSet(lk, k))
    case LockSet(lk, k) => SetPc(s, Continue(k)).(holder := s.holder[lk := s.current])
    case UnlockTest(lk, k) =>
      if lk !in s.holder then s.(panic := s.panic + {UnlockFree}) else SetPc(s, UnlockClear(lk, k))
    case UnlockClear(lk, k) => SetPc(s, UnlockDec(k)).(holder := s.holder - {lk})
    case UnlockDec(k) =>
      SetMe(s, me.(intrCnt := me.intrCnt - 1, pc := if me.intrCnt - 1 == 0 then UnlockIntr(k) else Continue(k)))
    case UnlockIntr(k) => SetPc(s, Continue(k)).(flag := true)
    case WaitTest(sem) =>
      if sem in s.value && s.value[sem] > 0 then SetPc(s, WaitDec(sem))
      else SetPc(s, UnlockTest(SemLock(sem), ToYield(sem)))
    case WaitDec(sem) => Count(SetPc(s, UnlockTest(SemLock(sem), ToClient)), sem, -1, Waited(s.current, sem))
    case WaitYield(sem) => Switch(AboutToSwitch(s), next)
    case Relock(sem) => SetPc(s, LockInc(SemLock(sem), ToWait(sem))).(flag := false)
    case SignalInc(sem) => Count(SetPc(s, UnlockTest(SemLock(sem), ToClient)), sem, 1, Signalled(s.current, sem))
    case Creating(stackOk, saved) =>
      var t := FirstFree(s.threads, 0);
      var s1 := SetPc(s, Restoring(saved));
      if t < NR_THREADS && stackOk then s1.(threads := s1.threads[t := Thread(Ready, 0, true, Client)])
      else s.(panic := s.panic + {NoThreadSlot})
    case Tearing(t, saved) =>
      if t == s.current then Switch(AboutToSwitch(s), next)
      else SetPc(s, Restoring(saved)).(threads := SetPc(s, Restoring(saved)).threads - {t})
    case Restoring(saved) => SetPc(s, Client).(flag := saved)
  }

  function Count(s: State, sem: Sem, d: int, e: Event): State {
    if sem in s.value then s.(value := s.value[sem := s.value[sem] + d], log := s.log + [e]) else s
  }

  /* ---- executions ---- */

  /** Every move offered when its turn comes, and within the discipline. */
  ghost predicate Legal(s: State, moves: seq<Move>)
    decreases |moves|
  {
    moves != [] ==> Enabled(s, moves[0]) && Disciplined(s, moves[0]) && Legal(Next(s, moves[0]), moves[1..])
  }

  ghost predicate Offered(s: State, moves: seq<Move>)
    decreases |moves|
  {
    moves != [] ==> Enabled(s, moves[0]) && Offered(Next(s, moves[0]), moves[1..])
  }

  ghost function Exec(s: State, moves: seq<Move>): State
    requires Offered(s, moves)
    decreases |moves|
  {
    if moves == [] then s else Exec(Next(s, moves[0]), moves[1..])
  }

  lemma {:induction false} LegalIsOffered(s: State, moves: seq<Move>)
    requires Legal(s, moves)
    ensures Offered(s, moves)
    decreases |moves|
  {
    if moves != [] { LegalIsOffered(Next(s, moves[0]), moves[1..]); }
  }

  /** Boot: one thread running, interrupts on, nothing locked, and semaphores
      with nonnegative initial values. */
  ghost predicate Start(s: State) {
    && s.current < NR_THREADS && s.threads == map[s.current := Thread(Running, 0, true, Client)]
    && s.flag && s.holder == map[] && s.log == [] && s.panic == {}
    && forall sem :: sem in s.value ==> s.value[sem] >= 0
  }

  /* ---- the invariant ---- */

  function Signals(log: seq<Event>, sem: Sem): nat {
    if log == [] then 0 else
      Signals(log[..|log| - 1], sem) + (if log[|log| - 1].Signalled? && log[|log| - 1].sem == sem then 1 else 0)
  }

  function Waits(log: seq<Event>, sem: Sem): nat {
    if log == [] then 0 else
      Waits(log[..|log| - 1], sem) + (if log[|log| - 1].Waited? && log[|log| - 1].sem == sem then 1 else 0)
  }

  /** Increments of the nesting counter not yet, or no longer, backed by a holder. */
  function Extra(pc: Pc): nat {
    if pc.LockTest? || pc.LockSet? || pc.UnlockDec? then 1 else 0
  }

  predicate InterruptiblePc(pc: Pc) {
    pc.Client? || pc.WaitYield? || pc.Relock?
  }

  /** What the pc says about the locks held. */
  ghost predicate PcOk(s: State, pc: Pc) {
    var held := s.holder.Keys;
    && (forall sem :: SemLock(sem) in held ==>
         pc == WaitTest(sem) || pc == WaitDec(sem) || pc == SignalInc(sem)
         || ((pc.UnlockTest? || pc.UnlockClear?) && pc.lk == SemLock(sem)))
    && match pc
       case LockInc(lk, k) => lk !in held && LockReturns(s, lk, k)
       case LockTest(lk, k) => lk !in held && LockReturns(s, lk, k)
       case LockSet(lk, k) => lk !in held && LockReturns(s, lk, k)
       case UnlockTest(lk, k) => lk in held && UnlockReturns(s, k) && (k.ToYield? ==> held == {lk})
       case UnlockClear(lk, k) => lk in held && UnlockReturns(s, k) && (k.ToYield? ==> held == {lk})
       case UnlockDec(k) => UnlockReturns(s, k) && (k.ToYield? ==> held == {})
       case UnlockIntr(k) => UnlockReturns(s, k) && held == {}
       case WaitTest(sem) => sem in s.value && held == {SemLock(sem)}
       case WaitDec(sem) => sem in s.value && held == {SemLock(sem)} && s.value[sem] > 0
       case WaitYield(sem) => sem in s.value && held == {}
       case Relock(sem) => sem in s.value && held == {}
       case SignalInc(sem) => sem in s.value && SemLock(sem) in held
       case Tearing(t, _) => t in s.threads && (t == s.current ==> held == {})
       case _ => true
  }

  ghost predicate LockReturns(s: State, lk: Lock, k: Return) {
    match k
    case ToClient => lk.Spin?
    case ToWait(sem) => lk == SemLock(sem) && sem in s.value && s.holder.Keys == {}
    case ToSignal(sem) => lk == SemLock(sem) && sem in s.value
    case ToYield(_) => false
  }

  ghost predicate UnlockReturns(s: State, k: Return) {
    match k
    case ToClient => true
    case ToYield(sem) => sem in s.value
    case _ => false
  }

  /** A thread that is not running was stopped where interrupts were on. */
  ghost predicate Parked(s: State, t: Thread) {
    && t.status == Ready && t.intrCnt == 0 && t.savedFlag
    && (t.pc == Client || ((t.pc.WaitYield? || t.pc.Relock?) && t.pc.sem in s.value))
  }

  ghost predicate RunnerOk(s: State)
    requires s.current in s.threads
  {
    var me := Me(s);
    && me.status == Running
    && me.intrCnt == |s.holder.Keys| + Extra(me.pc)
    && (s.flag <==> InterruptiblePc(me.pc) && me.intrCnt == 0)
    && PcOk(s, me.pc)
    && (me.pc.Creating? || me.pc.Tearing? || me.pc.Restoring? ==> (me.pc.saved <==> me.intrCnt == 0))
  }

  ghost predicate ThreadsOk(s: State) {
    && s.current in s.threads && RunnerOk(s)
    && (forall t :: t in s.threads ==> t < NR_THREADS)
    && (forall t :: t in s.threads && t != s.current ==> Parked(s, s.threads[t]))
    && (forall lk :: lk in s.holder ==> s.holder[lk] == s.current)
  }

  ghost predicate SemsOk(s: State, init: map<Sem, int>) {
    && s.value.Keys == init.Keys
    && forall sem :: sem in s.value ==>
         s.value[sem] >= 0 && s.value[sem] == init[sem] + Signals(s.log, sem) - Waits(s.log, sem)
  }

  ghost predicate Inv(s: State, init: map<Sem, int>) {
    && LockHeld !in s.panic && UnlockFree !in s.panic
    && SemsOk(s, init)
    && (s.panic == {} ==> ThreadsOk(s))
  }

  lemma StartInv(s: State)
    requires Start(s)
    ensures Inv(s, s.value)
  {
  }

  /** What leaves values and log alone is no semaphore operation. */
  lemma SemsSame(s: State, s': State, init: map<Sem, int>)
    requires SemsOk(s, init) && s'.value == s.value && s'.log == s.log
    ensures SemsOk(s', init)
  {
  }

  lemma ParkedSame(s: State, s': State, t: Thread)
    requires Parked(s, t) && s'.value == s.value
    ensures Parked(s', t)
  {
  }

  lemma ParkedFacts(s: State, t: Thread)
    requires Parked(s, t)
    ensures t.savedFlag
  {
  }

  /** A parked thread runs on with its own flag. */
  lemma ResumedRunner(s: State, t: Thread)
    requires s.current in s.threads && Me(s) == t.(status := Running) && Parked(s, t)
    requires s.flag && s.holder.Keys == {}
    ensures RunnerOk(s)
  {
  }

  /** Switching away from a thread stopped with interrupts on, or torn down, keeps the invariant. */
  lemma SwitchInv(s: State, next: Tid, init: map<Sem, int>)
    requires s.panic == {} && SemsOk(s, init) && Schedulable(s, next) && s.holder.Keys == {}
    requires forall t :: t in s.threads ==> t < NR_THREADS
    requires forall t :: t in s.threads && t != s.current ==> Parked(s, s.threads[t])
    requires s.current in s.threads ==> s.flag && Parked(s, Me(s).(status := Ready, savedFlag := true))
    ensures Inv(Switch(s, next), init)
  {
    SemsSame(s, Switch(s, next), init);
    hide SemsOk, RunnerOk, Parked;
    var s1, s' := Preempt(s), Switch(s, next);
    forall t | t in s1.threads && IsReady(s1, next) ensures Parked(s', s1.threads[t]) {
      var was := if t == s.current then Me(s).(status := Ready, savedFlag := true) else s.threads[t];
      ParkedSame(s, s', was);
    }
    if IsReady(s1, next) {
      ParkedFacts(s', s1.threads[next]);
      ResumedRunner(s', s1.threads[next]);
    }
  }

  lemma CountInv(s: State, sem: Sem, d: int, e: Event, init: map<Sem, int>)
    requires SemsOk(s, init) && sem in s.value && s.value[sem] + d >= 0
    requires (d == 1 && e.Signalled? && e.sem == sem) || (d == -1 && e.Waited? && e.sem == sem)
    ensures SemsOk(Count(s, sem, d, e), init)
  {
    var s' := Count(s, sem, d, e);
    assert s'.log[..|s'.log| - 1] == s.log;
  }

  /** Between s and s' only the running thread, the flag and its locks changed. */
  ghost predicate Local(s: State, s': State)
    requires s.current in s.threads
  {
    && s'.panic == s.panic && s'.current == s.current
    && s.current in s'.threads && s'.threads == s.threads[s.current := Me(s')]
    && s'.value.Keys == s.value.Keys
    && forall lk :: lk in s'.holder ==> s'.holder[lk] == s.current || (lk in s.holder && s'.holder[lk] == s.holder[lk])
  }

  /** Such a step leaves the parked threads as they are. */
  lemma LocalInv(s: State, s': State, init: map<Sem, int>)
    requires Inv(s, init) && s.panic == {} && Local(s, s')
    requires RunnerOk(s') && SemsOk(s', init)
    ensures Inv(s', init)
  {
  }

  /** The store of the holder, and its clearing. */
  lemma HolderSteps(s: State, next: Tid)
    requires s.current in s.threads && RunnerOk(s) && (Me(s).pc.LockSet? || Me(s).pc.UnlockClear?)
    ensures var s' := Advance(s, next); Local(s, s') && RunnerOk(s') && s'.value == s.value && s'.log == s.log
  {
    var s' := Advance(s, next);
    var lk := Me(s).pc.lk;
    if Me(s).pc.LockSet? {
      assert s'.holder.Keys == s.holder.Keys + {lk};
    } else {
      assert s'.holder.Keys == s.holder.Keys - {lk};
    }
  }

  /** The steps of spin_lock. */
  lemma LockSteps(s: State, next: Tid)
    requires s.current in s.threads && RunnerOk(s)
    requires Me(s).pc.LockInc? || Me(s).pc.LockTest? || Me(s).pc.LockSet?
    ensures var s' := Advance(s, next); Local(s, s') && RunnerOk(s') && s'.value == s.value && s'.log == s.log
  {
    if Me(s).pc.LockSet? { HolderSteps(s, next); }
  }

  /** The steps of spin_unlock. */
  lemma UnlockSteps(s: State, next: Tid)
    requires s.current in s.threads && RunnerOk(s)
    requires Me(s).pc.UnlockTest? || Me(s).pc.UnlockClear? || Me(s).pc.UnlockDec? || Me(s).pc.UnlockIntr?
    ensures var s' := Advance(s, next); Local(s, s') && RunnerOk(s') && s'.value == s.value && s'.log == s.log
  {
    if Me(s).pc.UnlockClear? { HolderSteps(s, next); }
  }

  /** The semaphore steps that leave the value alone. */
  lemma WaitSteps(s: State, next: Tid)
    requires s.current in s.threads && RunnerOk(s) && (Me(s).pc.WaitTest? || Me(s).pc.Relock?)
    ensures var s' := Advance(s, next); Local(s, s') && RunnerOk(s') && s'.value == s.value && s'.log == s.log
  {
  }

  /** The semaphore steps that count. */
  lemma WaitStep(s: State, next: Tid, init: map<Sem, int>)
    requires s.current in s.threads && RunnerOk(s) && SemsOk(s, init) && Me(s).pc.WaitDec?
    ensures var s' := Advance(s, next); Local(s, s') && RunnerOk(s') && SemsOk(s', init)
  {
    var sem := Me(s).pc.sem;
    CountInv(SetPc(s, UnlockTest(SemLock(sem), ToClient)), sem, -1, Waited(s.current, sem), init);
  }

  lemma SignalStep(s: State, next: Tid, init: map<Sem, int>)
    requires s.current in s.threads && RunnerOk(s) && SemsOk(s, init) && Me(s).pc.SignalInc?
    ensures var s' := Advance(s, next); Local(s, s') && RunnerOk(s') && SemsOk(s', init)
  {
    var sem := Me(s).pc.sem;
    CountInv(SetPc(s, UnlockTest(SemLock(sem), ToClient)), sem, 1, Signalled(s.current, sem), init);
  }

  /** Adding a fresh ready thread, or removing a parked one, leaves the rest as it is. */
  lemma TableInv(s: State, s': State, init: map<Sem, int>)
    requires Inv(s, init) && s.panic == {} && RunnerOk(s) && s.current in s'.threads
    requires s' == s.(threads := s'.threads)
    requires Me(s') == Me(s).(pc := Me(s').pc) && RunnerOk(s')
    requires forall t :: t in s'.threads && t != s.current ==>
      t < NR_THREADS &&
      ((t in s.threads && s'.threads[t] == s.threads[t]) || s'.threads[t] == Thread(Ready, 0, true, Client))
    ensures Inv(s', init)
  {
    forall t | t in s'.threads && t != s'.current ensures Parked(s', s'.threads[t]) {
      if t in s.threads { assert Parked(s, s.threads[t]); }
    }
  }

  /** The lowest free slot holds a new ready thread, or there was no slot or no stack. */
  predicate CreateEffect(s: State, s': State, stackOk: bool) {
    var t := FirstFree(s.threads, 0);
    if t < NR_THREADS && stackOk then
      s'.panic == s.panic && s'.threads.Keys == s.threads.Keys + {t} && s'.threads[t] == Thread(Ready, 0, true, Client)
    else s'.threads == s.threads && NoThreadSlot in s'.panic
  }

  lemma CreateStep(s: State, next: Tid, init: map<Sem, int>)
    requires Inv(s, init) && s.panic == {} && Me(s).pc.Creating?
    ensures Inv(Advance(s, next), init)
    ensures CreateEffect(s, Advance(s, next), Me(s).pc.stackOk)
  {
    CreateDone(s, next);
    var s' := Advance(s, next);
    SemsSame(s, s', init);
    hide SemsOk, CreateEffect;
    if s'.panic == {} { TableInv(s, s', init); }
  }

  lemma CreateDone(s: State, next: Tid)
    requires s.current in s.threads && Me(s).pc.Creating?
    ensures CreateEffect(s, Advance(s, next), Me(s).pc.stackOk)
  {
  }

  lemma TeardownStep(s: State, next: Tid, init: map<Sem, int>)
    requires Inv(s, init) && s.panic == {} && Me(s).pc.Tearing? && Me(s).pc.tid != s.current
    ensures Inv(Advance(s, next), init)
    ensures Advance(s, next).threads.Keys == s.threads.Keys - {Me(s).pc.tid}
  {
    hide SemsOk;
    TableInv(s, Advance(s, next), init);
  }

  /** The steps that stay within the running thread. */
  lemma LocalGo(s: State, next: Tid, init: map<Sem, int>)
    requires Inv(s, init) && s.panic == {}
    requires !Switching(s) && !Me(s).pc.Creating? && !Me(s).pc.Tearing? && !Me(s).pc.Client?
    ensures var s' := Advance(s, next); Local(s, s') && RunnerOk(s') && SemsOk(s', init)
  {
    var pc := Me(s).pc;
    if pc.LockInc? || pc.LockTest? || pc.LockSet? {
      LockSteps(s, next);
    } else if pc.UnlockTest? || pc.UnlockClear? || pc.UnlockDec? || pc.UnlockIntr? {
      UnlockSteps(s, next);
    } else if pc.WaitTest? || pc.Relock? {
      WaitSteps(s, next);
    } else if pc.WaitDec? {
      WaitStep(s, next, init);
    } else if pc.SignalInc? {
      SignalStep(s, next, init);
    }
  }

  /** The steps that give the CPU away. */
  lemma SwitchGo(s: State, next: Tid, init: map<Sem, int>)
    requires Inv(s, init) && s.panic == {} && Enabled(s, Go(next)) && Switching(s)
    ensures Inv(Advance(s, next), init)
  {
    SemsSame(s, AboutToSwitch(s), init);
    hide SemsOk;
    SwitchInv(AboutToSwitch(s), next, init);
  }

  /** One kernel step of the running thread. */
  lemma GoInv(s: State, next: Tid, init: map<Sem, int>)
    requires Inv(s, init) && s.panic == {} && Enabled(s, Go(next))
    ensures Inv(Advance(s, next), init)
  {
    hide RunnerOk, Parked, SemsOk, Local, CreateEffect;
    if Switching(s) {
      SwitchGo(s, next, init);
    } else if Me(s).pc.Creating? {
      CreateStep(s, next, init);
    } else if Me(s).pc.Tearing? {
      TeardownStep(s, next, init);
    } else {
      LocalGo(s, next, init);
      LocalInv(s, Advance(s, next), init);
    }
  }

  /** The first steps of calls that lock or unlock. */
  lemma LockCalls(s: State, m: Move)
    requires Enabled(s, m) && Disciplined(s, m) && RunnerOk(s)
    requires forall lk :: lk in s.holder ==> s.holder[lk] == s.current
    requires m.CallLock? || m.CallUnlock?
    ensures var s' := Next(s, m); Local(s, s') && RunnerOk(s') && s'.value == s.value && s'.log == s.log
  {
  }

  lemma SemCalls(s: State, m: Move)
    requires Enabled(s, m) && Disciplined(s, m) && RunnerOk(s)
    requires forall lk :: lk in s.holder ==> s.holder[lk] == s.current
    requires m.CallWait? || m.CallSignal?
    ensures var s' := Next(s, m); Local(s, s') && RunnerOk(s') && s'.value == s.value && s'.log == s.log
  {
  }

  lemma OtherCalls(s: State, m: Move)
    requires Enabled(s, m) && Disciplined(s, m) && RunnerOk(s)
    requires forall lk :: lk in s.holder ==> s.holder[lk] == s.current
    requires m.CallCreate? || m.CallTeardown? || m.ClientMark?
    ensures var s' := Next(s, m); Local(s, s') && RunnerOk(s') && s'.value == s.value
    ensures !m.ClientMark? ==> Next(s, m).log == s.log
  {
  }

  /** The first step of a call the running thread makes from client code. */
  lemma CallSteps(s: State, m: Move)
    requires Enabled(s, m) && Disciplined(s, m) && RunnerOk(s)
    requires forall lk :: lk in s.holder ==> s.holder[lk] == s.current
    requires !m.Go? && !m.Timer? && !m.CallYield?
    ensures var s' := Next(s, m); Local(s, s') && RunnerOk(s') && s'.value == s.value
    ensures !m.ClientMark? ==> Next(s, m).log == s.log
  {
    hide RunnerOk, Local, Next, Disciplined;
    if m.CallLock? || m.CallUnlock? {
      LockCalls(s, m);
    } else if m.CallWait? || m.CallSignal? {
      SemCalls(s, m);
    } else {
      OtherCalls(s, m);
    }
  }

  /** Where interrupts are on, no lock is held. */
  lemma FlagMeansFree(s: State, init: map<Sem, int>)
    requires Inv(s, init) && s.panic == {}
    ensures s.flag ==> s.holder.Keys == {} && InterruptiblePc(Me(s).pc)
    ensures Me(s).pc == Client ==> (s.flag <==> s.holder.Keys == {})
  {
  }

  /** Every disciplined move keeps the invariant. */
  lemma NextInv(s: State, m: Move, init: map<Sem, int>)
    requires Inv(s, init) && Enabled(s, m) && Disciplined(s, m)
    ensures Inv(Next(s, m), init)
  {
    FlagMeansFree(s, init);
    if m.Go? {
      GoInv(s, m.next, init);
    } else if m.CallYield? || m.Timer? {
      assert s.holder.Keys == {};
      SwitchInv(s, m.next, init);
    } else {
      CallSteps(s, m);
      var s' := Next(s, m);
      if m.ClientMark? { assert s'.log[..|s'.log| - 1] == s.log; }
      LocalInv(s, s', init);
    }
  }

  lemma {:induction false} ExecInv(s: State, moves: seq<Move>, init: map<Sem, int>)
    requires Inv(s, init) && Legal(s, moves)
    ensures Offered(s, moves) && Inv(Exec(s, moves), init)
    decreases |moves|
  {
    if moves != [] {
      NextInv(s, moves[0], init);
      ExecInv(Next(s, moves[0]), moves[1..], init);
    }
  }
}
