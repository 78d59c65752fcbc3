/** The thread table: creation, teardown and the scheduler's cyclic scan. */
module Threads {
  import opened Bits
  import opened PmmTable
  import opened Pmm
  import opened Limits

  const STACK_SIZE: nat := 4 * 1024 * 1024

  datatype Status = Invalid | Ready | Running | Blocked

  class Thread {
    var tid: int
    var status: Status
    var intrCnt: int
    var stack: nat      // start address of the stack area

    constructor ()
      ensures status == Invalid
    {
      tid, status, intrCnt, stack := 0, Invalid, 0, 0;
    }
  }

  /** A stack of 4 MiB is a block of 2^13 chunks. */
  lemma StackBlock()
    ensures ChunkLog(STACK_SIZE) == 13
  {
    Pow2Word();
    hide Pow2, CeilLog;
    var n, k := 22, CeilLog(STACK_SIZE);
    if k < n { Pow2Monotone(k, n); }
    if k > n { Pow2Monotone(n, k - 1); }
  }

  /** The stack of a thread lies in the address space. */
  lemma StackInWord(pmm: Manager, t: Thread)
    requires pmm.Valid() && t.stack % CHUNK_SIZE == 0 && t.stack / CHUNK_SIZE in pmm.live
    ensures t.stack < WORD
  {
    LiveStart(pmm.memTable[..], pmm.chkStart, pmm.chkEnd, pmm.live, t.stack / CHUNK_SIZE);
  }

  /** Different chunk addresses are in different chunks. */
  lemma ChunksApart(a: nat, b: nat)
    requires a % CHUNK_SIZE == 0 && b % CHUNK_SIZE == 0 && a != b
    ensures a / CHUNK_SIZE != b / CHUNK_SIZE
  {
  }

  /** The slot the cyclic scan visits after i. */
  function After(i: nat): (j: nat)
    ensures j < NR_THREADS
  {
    (i + 1) % NR_THREADS
  }

  /** Number of slots the scan from `start` passes before it reaches slot i. */
  function Distance(start: nat, i: nat): nat
    requires start < NR_THREADS && i < NR_THREADS
  {
    if start <= i then i - start else i + NR_THREADS - start
  }

  class Kmt {
    const threads: array<Thread?>
    const pmm: Manager
    var thisThread: Thread?

    constructor (pmm: Manager)
      requires pmm.Valid()
      ensures this.pmm == pmm && fresh(threads) && Valid()
      ensures thisThread == null && forall i :: 0 <= i < NR_THREADS ==> threads[i] == null
    {
      this.pmm := pmm;
      threads := new Thread?[NR_THREADS](_ => null);
      thisThread := null;
    }

    /** The threads installed in the table. */
    ghost function Installed(): set<Thread>
      reads this, threads
    {
      set i | 0 <= i < threads.Length && threads[i] != null :: threads[i]
    }

    ghost predicate OwnsStack(t: Thread)
      reads pmm`live, t
    {
      t.stack % CHUNK_SIZE == 0 && t.stack / CHUNK_SIZE in pmm.live && pmm.live[t.stack / CHUNK_SIZE] == 14
    }

    /** tids are slots, every installed thread owns a stack block of its own, and
        only this_thread can be running. Slot `k` is exempt. */
    ghost predicate TableOkBut(k: nat)
      reads this, threads, Installed(), pmm`live
    {
      && threads.Length == NR_THREADS
      && (forall i :: 0 <= i < NR_THREADS && i != k && threads[i] != null ==>
           threads[i].tid == i && threads[i].status != Invalid && OwnsStack(threads[i]))
      && (forall i, j :: 0 <= i < j < NR_THREADS && i != k && j != k && threads[i] != null && threads[j] != null ==>
           threads[i].stack != threads[j].stack)
      && (forall i :: 0 <= i < NR_THREADS && i != k && threads[i] != null && threads[i].status == Running ==>
           threads[i] == thisThread)
    }

    ghost predicate TableOk()
      reads this, threads, Installed(), pmm`live
    {
      TableOkBut(NR_THREADS)
    }

    ghost predicate Valid()
      reads this, threads, Installed(), pmm, pmm.memTable
    {
      TableOk() && pmm.Valid()
    }

    ghost predicate Full()
      reads threads
    {
      forall i :: 0 <= i < threads.Length ==> threads[i] != null
    }

    /** Install a thread in the first empty slot, with a stack of its own; fail
        (the caller panics) when the table is full or no stack fits in memory. */
    method Create(thread: Thread) returns (succ: bool, ghost slot: nat)
      requires Valid() && thread !in Installed()
      modifies threads, thread, pmm`live, pmm.memTable
      ensures Valid()
      // the lowest empty slot
      ensures succ ==> slot < NR_THREADS == threads.Length && old(threads[slot]) == null
      ensures succ ==> forall j :: 0 <= j < slot ==> old(threads[j]) != null
      ensures succ ==> threads[..] == old(threads[..])[slot := thread]
      ensures succ ==> thread.status == Ready && thread.intrCnt == 0
      ensures succ ==> thread.stack / CHUNK_SIZE !in old(pmm.live)
      ensures succ ==> pmm.live == old(pmm.live)[thread.stack / CHUNK_SIZE := 14]
      ensures !succ ==> threads[..] == old(threads[..]) && pmm.live == old(pmm.live)
      ensures !succ ==> Full() || forall c :: !Window(pmm.memTable[..], pmm.chkStart, pmm.chkEnd, Pow2(13), c)
    {
      assert threads.Length == NR_THREADS;
      hide TableOk, TableOkBut, Manager.Valid, Window;
      var i := 0;
      while i < NR_THREADS && threads[i] != null
        invariant 0 <= i <= NR_THREADS
        invariant forall j :: 0 <= j < i ==> threads[j] != null
      {
        i := i + 1;
      }
      slot := i;
      if i == NR_THREADS { return false, slot; }
      var stack := NewStack();
      if stack == 0 { return false, slot; }
      Install(thread, i, stack);
      succ := true;
    }

    /** Allocate a stack; 0 if no block of its size is free. */
    method NewStack() returns (stack: nat)
      requires Valid()
      modifies pmm`live, pmm.memTable
      ensures Valid()
      ensures stack == 0 ==> pmm.live == old(pmm.live)
      ensures stack == 0 ==> forall c :: !Window(pmm.memTable[..], pmm.chkStart, pmm.chkEnd, Pow2(13), c)
      ensures stack != 0 ==> stack % CHUNK_SIZE == 0 && stack / CHUNK_SIZE !in old(pmm.live)
      ensures stack != 0 ==> pmm.live == old(pmm.live)[stack / CHUNK_SIZE := 14]
      ensures stack != 0 ==> forall t :: t in Installed() ==> t.stack != stack
    {
      hide Manager.Valid, Window;
      StackBlock();
      stack := pmm.Alloc(STACK_SIZE);
    }

    /** Enter a thread that owns the block at `stack` into slot i. */
    method Install(thread: Thread, i: nat, stack: nat)
      requires TableOk() && thread !in Installed() && i < NR_THREADS && threads[i] == null
      requires stack % CHUNK_SIZE == 0 && stack / CHUNK_SIZE in pmm.live && pmm.live[stack / CHUNK_SIZE] == 14
      requires forall t :: t in Installed() ==> t.stack != stack
      modifies threads, thread
      ensures TableOk() && threads[..] == old(threads[..])[i := thread]
      ensures thread.tid == i && thread.status == Ready && thread.intrCnt == 0 && thread.stack == stack
    {
      thread.stack := stack;
      thread.tid := i;
      thread.intrCnt := 0;
      thread.status := Ready;
      threads[i] := thread;
      assert forall j :: 0 <= j < NR_THREADS && j != i ==> threads[j] == old(threads[j]);
    }

    /** Remove a thread and free its stack; a thread that removes itself gives
        the CPU away for good. */
    method Teardown(thread: Thread, start: nat) returns (ok: bool)
      requires Valid() && thread in Installed() && start < NR_THREADS
      modifies this`thisThread, threads, Installed(), pmm`live, pmm.memTable
      ensures Valid()
      ensures threads[..] == old(threads[..])[old(thread.tid) := null]
      ensures thread.status == Invalid
      ensures pmm.live == old(pmm.live) - {old(thread.stack) / CHUNK_SIZE}
      ensures thread != old(thisThread) ==> ok && thisThread == old(thisThread)
      ensures thread != old(thisThread) ==> forall t :: t in Installed() ==> unchanged(t)
      ensures thread == old(thisThread) ==>
        (ok <==> exists i :: 0 <= i < NR_THREADS && i != old(thread.tid) && old(CanRun(i)))
      ensures thread == old(thisThread) && ok ==>
        thisThread in Installed() && thisThread.status == Running
      ensures forall t :: t in Installed() ==>
        t.tid == old(t.tid) && t.stack == old(t.stack) && t.intrCnt == old(t.intrCnt)
    {
      Vacate(thread);
      ok := true;
      assert forall i :: 0 <= i < NR_THREADS ==> (CanRun(i) <==> i != old(thread.tid) && old(CanRun(i)));
      if thread == thisThread {
        ghost var next;
        ok, next := Schedule(start);
      }
    }

    /** Free the stack of a thread and clear its slot. */
    method Vacate(thread: Thread)
      requires Valid() && thread in Installed()
      modifies threads, thread`status, pmm`live, pmm.memTable
      ensures Valid() && thread.status == Invalid
      ensures threads[..] == old(threads[..])[thread.tid := null]
      ensures pmm.live == old(pmm.live) - {thread.stack / CHUNK_SIZE}
    {
      hide Manager.Valid;
      FreeStack(thread);
      threads[thread.tid] := null;
    }

    /** Free the stack of a thread, which is in order no more. */
    method FreeStack(thread: Thread)
      requires Valid() && thread in Installed()
      modifies thread`status, pmm`live, pmm.memTable
      ensures 0 <= thread.tid < threads.Length && threads[thread.tid] == thread
      ensures TableOkBut(thread.tid) && pmm.Valid() && thread.status == Invalid
      ensures pmm.live == old(pmm.live) - {thread.stack / CHUNK_SIZE}
    {
      StackInWord(pmm, thread);
      hide Manager.Valid;
      thread.status := Invalid;
      var outcome := pmm.Free(thread.stack);
      forall i | 0 <= i < NR_THREADS && i != thread.tid && threads[i] != null ensures OwnsStack(threads[i]) {
        ChunksApart(threads[i].stack, thread.stack);
      }
    }

    /** The thread in slot i is ready once the running thread has been demoted. */
    ghost predicate CanRun(i: nat)
      requires i < threads.Length
      reads threads, threads[i]
    {
      threads[i] != null && (threads[i].status == Ready || threads[i].status == Running)
    }

    /** Demote the running thread and pick the first ready one from slot `start`
        on, cyclically; panic (not ok) only when there is none. */
    method Schedule(start: nat) returns (ok: bool, ghost slot: nat)
      requires TableOk() && start < NR_THREADS
      modifies this`thisThread, Installed(), thisThread
      ensures TableOk()
      ensures ok <==> exists i :: 0 <= i < NR_THREADS && old(CanRun(i))
      ensures ok ==> slot < NR_THREADS && old(CanRun(slot)) && thisThread == threads[slot]
      ensures ok ==> thisThread.status == Running
      // no thread between start and the slot, going up and around, can run
      ensures ok && start <= slot ==> forall i :: start <= i < slot ==> !old(CanRun(i))
      ensures ok && slot < start ==> forall i :: start <= i < NR_THREADS || 0 <= i < slot ==> !old(CanRun(i))
      ensures forall t :: t in Installed() && (ok ==> t != thisThread) ==>
        t.status == if old(t.status) == Running then Ready else old(t.status)
      ensures forall t :: t in Installed() ==>
        t.tid == old(t.tid) && t.stack == old(t.stack) && t.intrCnt == old(t.intrCnt)
      ensures old(thisThread) != null && old(thisThread.status) == Invalid ==> old(thisThread).status == Invalid
    {
      Demote();
      var ntid;
      ok, ntid := Scan(start);
      slot := ntid;
      assert forall i :: 0 <= i < NR_THREADS && old(CanRun(i)) ==> ReadyAt(i);
      if ok { Dispatch(ntid); }
    }

    /** Give the CPU to a ready thread while none is running. */
    method Dispatch(ntid: nat)
      requires TableOk() && ntid < NR_THREADS && ReadyAt(ntid)
      requires forall i :: 0 <= i < NR_THREADS && threads[i] != null ==> threads[i].status != Running
      modifies this`thisThread, threads[ntid]
      ensures TableOk() && thisThread == threads[ntid] && thisThread.status == Running
      ensures thisThread.tid == old(threads[ntid].tid) && thisThread.stack == old(threads[ntid].stack)
      ensures thisThread.intrCnt == old(threads[ntid].intrCnt)
    {
      thisThread := threads[ntid];
      thisThread.status := Running;
    }

    /** The running thread, if any, is ready again: now exactly the threads that
        can run are ready. */
    method Demote()
      requires TableOk()
      modifies thisThread
      ensures TableOk() && forall i :: 0 <= i < NR_THREADS ==> (ReadyAt(i) <==> old(CanRun(i)))
      ensures thisThread != null ==>
        && thisThread.status == (if old(thisThread.status) == Running then Ready else old(thisThread.status))
        && thisThread.tid == old(thisThread.tid) && thisThread.stack == old(thisThread.stack)
        && thisThread.intrCnt == old(thisThread.intrCnt)
      ensures forall i :: 0 <= i < NR_THREADS && threads[i] != null ==> threads[i].status != Running
    {
      if thisThread != null && thisThread.status == Running { thisThread.status := Ready; }
    }

    ghost predicate ReadyAt(i: nat)
      requires i < threads.Length
      reads threads, threads[i]
    {
      threads[i] != null && threads[i].status == Ready
    }

    /** The cyclic scan for a ready thread. */
    method Scan(start: nat) returns (found: bool, ntid: nat)
      requires threads.Length == NR_THREADS && start < NR_THREADS
      ensures ntid < NR_THREADS && (found ==> ReadyAt(ntid))
      ensures forall i :: 0 <= i < NR_THREADS && ReadyAt(i) ==> found && Distance(start, ntid) <= Distance(start, i)
    {
      ntid := start;
      ghost var passed: nat := 0;
      while threads[ntid] == null || threads[ntid].status != Ready
        invariant ntid < NR_THREADS && passed == Distance(start, ntid) < NR_THREADS
        invariant forall i :: 0 <= i < NR_THREADS && Distance(start, i) < passed ==> !ReadyAt(i)
        decreases NR_THREADS - passed
      {
        assert !ReadyAt(ntid);
        ntid := After(ntid);
        passed := passed + 1;
        if ntid == start {
          assert passed == NR_THREADS;
          return false, ntid;
        }
      }
      found := true;
    }
  }
}
